/** The fixed-width row layout: id (ssize_t), then username and email as
    NUL-padded character fields one byte wider than the column maximum. */
module RowCodec {
  import opened Bytes

  const COLUMN_USERNAME_SIZE: int := 32
  const COLUMN_EMAIL_SIZE: int := 255

  const ID_SIZE: int := 8                                  // sizeof(ssize_t)
  const USERNAME_SIZE: int := COLUMN_USERNAME_SIZE + 1     // char username[33]
  const EMAIL_SIZE: int := COLUMN_EMAIL_SIZE + 1           // char email[256]
  const ID_OFFSET: int := 0
  const USERNAME_OFFSET: int := ID_OFFSET + ID_SIZE
  const EMAIL_OFFSET: int := USERNAME_OFFSET + USERNAME_SIZE
  const ROW_SIZE: int := ID_SIZE + USERNAME_SIZE + EMAIL_SIZE

  /** A record. The two string fields hold the characters of the C string,
      without its terminating NUL. */
  datatype Row = Row(id: int, username: seq<Byte>, email: seq<Byte>)

  predicate NoNul(s: seq<Byte>) { forall i :: 0 <= i < |s| ==> s[i] != 0 }

  /** What a char array holds as a C string: everything before its first NUL. */
  function CString(buf: seq<Byte>): (s: seq<Byte>)
    ensures NoNul(s) && s <= buf
    ensures |s| < |buf| ==> buf[|s|] == 0
  {
    if |buf| == 0 || buf[0] == 0 then [] else [buf[0]] + CString(buf[1..])
  }

  /** strncpy(dst, src, n): the characters of the C string src, at most n of
      them, followed by NUL bytes up to n. */
  function StrNCpy(src: seq<Byte>, n: nat): (dst: seq<Byte>)
    ensures |dst| == n
  {
    var s := CString(src);
    if |s| >= n then s[..n] else s + Zeros(n - |s|)
  }

  /** The rows whose serialisation loses nothing: the id fits an ssize_t and
      each string, free of NUL, leaves room for a terminator in its field. */
  predicate FitsLayout(r: Row)
  {
    && IsInt64(r.id)
    && NoNul(r.username) && |r.username| <= COLUMN_USERNAME_SIZE
    && NoNul(r.email) && |r.email| <= COLUMN_EMAIL_SIZE
  }

  /** serialize_row: the ROW_SIZE bytes it writes at the destination. */
  function Serialize(r: Row): (bs: seq<Byte>)
    requires IsInt64(r.id)
    ensures |bs| == ROW_SIZE
  {
    EncodeInt64(r.id) + StrNCpy(r.username, USERNAME_SIZE) + StrNCpy(r.email, EMAIL_SIZE)
  }

  /** deserialize_row: copies the three fields back and reads the two char
      arrays as C strings. */
  function Deserialize(bs: seq<Byte>): (r: Row)
    requires |bs| == ROW_SIZE
    ensures IsInt64(r.id)
    ensures |r.username| <= USERNAME_SIZE && |r.email| <= EMAIL_SIZE
  {
    Row(DecodeInt64(bs[ID_OFFSET..USERNAME_OFFSET]),
        CString(bs[USERNAME_OFFSET..EMAIL_OFFSET]),
        CString(bs[EMAIL_OFFSET..ROW_SIZE]))
  }

  lemma LayoutIsContiguous()
    ensures USERNAME_OFFSET == ID_OFFSET + ID_SIZE
    ensures EMAIL_OFFSET == USERNAME_OFFSET + USERNAME_SIZE
    ensures ROW_SIZE == EMAIL_OFFSET + EMAIL_SIZE
    ensures ID_OFFSET == 0 && USERNAME_OFFSET == 8 && EMAIL_OFFSET == 41 && ROW_SIZE == 297
  {
  }

  lemma {:induction false} CStringOfNoNul(s: seq<Byte>)
    requires NoNul(s)
    ensures CString(s) == s
  {
    if |s| > 0 {
      CStringOfNoNul(s[1..]);
    }
  }

  /** A string followed by at least one NUL reads back as itself. */
  lemma {:induction false} CStringOfPadded(s: seq<Byte>, pad: nat)
    requires NoNul(s) && pad > 0
    ensures CString(s + Zeros(pad)) == s
  {
    if |s| == 0 {
    } else {
      assert (s + Zeros(pad))[1..] == s[1..] + Zeros(pad);
      CStringOfPadded(s[1..], pad);
    }
  }

  /** strncpy of a short enough NUL-free string is the string, NUL-padded. */
  lemma StrNCpyPads(s: seq<Byte>, n: nat)
    requires NoNul(s) && |s| < n
    ensures StrNCpy(s, n) == s + Zeros(n - |s|)
  {
    CStringOfNoNul(s);
  }

  /** Where the fields land: id at 0, username at 8, email at 41, each
      string followed by NUL bytes up to the end of its field. */
  lemma SerializeLayout(r: Row)
    requires FitsLayout(r)
    ensures Serialize(r)[ID_OFFSET..USERNAME_OFFSET] == EncodeInt64(r.id)
    ensures Serialize(r)[USERNAME_OFFSET..EMAIL_OFFSET]
         == r.username + Zeros(USERNAME_SIZE - |r.username|)
    ensures Serialize(r)[EMAIL_OFFSET..ROW_SIZE] == r.email + Zeros(EMAIL_SIZE - |r.email|)
  {
    StrNCpyPads(r.username, USERNAME_SIZE);
    StrNCpyPads(r.email, EMAIL_SIZE);
    var a, b, c := EncodeInt64(r.id), StrNCpy(r.username, USERNAME_SIZE), StrNCpy(r.email, EMAIL_SIZE);
    assert Serialize(r) == a + b + c;
    assert (a + b + c)[..8] == a;
    assert (a + b + c)[8..41] == b;
    assert (a + b + c)[41..297] == c;
  }

  /** The byte-level round trip: deserialising a serialised row gives back
      the same id, username and email. */
  lemma RoundTrip(r: Row)
    requires FitsLayout(r)
    ensures Deserialize(Serialize(r)) == r
  {
    SerializeLayout(r);
    DecodeEncodeInt64(r.id);
    CStringOfPadded(r.username, USERNAME_SIZE - |r.username|);
    CStringOfPadded(r.email, EMAIL_SIZE - |r.email|);
  }

  /** Two rows that fit the layout serialise alike only if they are equal. */
  lemma SerializeInjective(r1: Row, r2: Row)
    requires FitsLayout(r1) && FitsLayout(r2)
    requires Serialize(r1) == Serialize(r2)
    ensures r1 == r2
  {
    RoundTrip(r1);
    RoundTrip(r2);
  }
}
