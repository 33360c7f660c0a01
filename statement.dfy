/** The checks prepare_insert would apply to an insert statement: the
    syntax, sign and length checks a row passes before it is executed.
    main's dispatch goes through prepare_statement's sscanf, which makes
    none of these checks, and never calls prepare_insert. The line has
    already been split into its space-separated tokens (what the four
    strtok calls return). */
module Statement {
  import opened Bytes
  import opened RowCodec

  datatype PrepareResult =
    | PrepareSuccess(row: Row)
    | PrepareSyntaxError
    | PrepareNegativeId
    | PrepareStringTooLong

  /** The rows prepare_insert lets through: a non-negative C `int` id and
      strings within the column widths. */
  predicate ValidRow(r: Row)
  {
    && 0 <= r.id <= INT32_MAX
    && NoNul(r.username) && |r.username| <= COLUMN_USERNAME_SIZE
    && NoNul(r.email) && |r.email| <= COLUMN_EMAIL_SIZE
  }

  /** A token as strtok(_, " ") yields it: non-empty, no space, no NUL. */
  predicate IsToken(t: seq<Byte>)
  {
    |t| > 0 && NoNul(t) && forall k :: 0 <= k < |t| ==> t[k] != 0x20
  }

  /** isspace in the C locale. */
  predicate IsSpace(b: Byte) { b == 0x20 || 0x09 <= b <= 0x0D }

  predicate IsDigit(b: Byte) { 0x30 <= b <= 0x39 }

  predicate AllDigits(ds: seq<Byte>) { forall k :: 0 <= k < |ds| ==> IsDigit(ds[k]) }

  function SkipSpace(s: seq<Byte>): (t: seq<Byte>)
    ensures |t| <= |s| && t == s[|s| - |t|..]
  {
    if |s| > 0 && IsSpace(s[0]) then SkipSpace(s[1..]) else s
  }

  function LeadingDigits(s: seq<Byte>): (ds: seq<Byte>)
    ensures ds <= s && AllDigits(ds)
    ensures |ds| < |s| ==> !IsDigit(s[|ds|])
  {
    if |s| > 0 && IsDigit(s[0]) then [s[0]] + LeadingDigits(s[1..]) else []
  }

  /** The value of a string of decimal digits. */
  function DigitsValue(ds: seq<Byte>): nat
    requires AllDigits(ds)
  {
    if |ds| == 0 then 0 else DigitsValue(ds[..|ds| - 1]) * 10 + (ds[|ds| - 1] - 0x30) as nat
  }

  /** atoi as the C library computes it: leading white space, an optional
      sign and the longest run of digits; the value is clamped to the range
      of `long` (strtol) and then narrowed to `int`. */
  function Atoi(s: seq<Byte>): (r: int)
    ensures IsInt32(r)
  {
    var t := SkipSpace(s);
    var negative := |t| > 0 && t[0] == 0x2D;
    var body := if |t| > 0 && (t[0] == 0x2D || t[0] == 0x2B) then t[1..] else t;
    var v: int := DigitsValue(LeadingDigits(body));
    var signed: int := if negative then -v else v;
    ToInt32(if signed > INT64_MAX then INT64_MAX else if signed < INT64_MIN then INT64_MIN else signed)
  }

  /** prepare_insert after tokenising: too few tokens is a syntax error, then
      the id, the username and the email are checked in that order. */
  function PrepareInsert(tokens: seq<seq<Byte>>): (r: PrepareResult)
    requires forall i :: 0 <= i < |tokens| ==> IsToken(tokens[i])
    ensures r == PrepareSyntaxError <==> |tokens| < 4
    ensures r == PrepareNegativeId <==> |tokens| >= 4 && Atoi(tokens[1]) < 0
    ensures r.PrepareSuccess? ==> ValidRow(r.row)
    ensures r.PrepareSuccess? <==>
      |tokens| >= 4 && ValidRow(Row(Atoi(tokens[1]), tokens[2], tokens[3]))
    ensures r.PrepareSuccess? ==> r.row == Row(Atoi(tokens[1]), tokens[2], tokens[3])
  {
    if |tokens| < 4 then PrepareSyntaxError
    else
      assert IsToken(tokens[2]) && IsToken(tokens[3]);
      var id := Atoi(tokens[1]);
      if id < 0 then PrepareNegativeId
      else if |tokens[2]| > COLUMN_USERNAME_SIZE then PrepareStringTooLong
      else if |tokens[3]| > COLUMN_EMAIL_SIZE then PrepareStringTooLong
      else PrepareSuccess(Row(id, tokens[2], tokens[3]))
  }

  /** A valid row can be inserted: every row the checks accept fits the
      layout, and its id survives the narrowing to the `int` key. */
  lemma ValidRowFits(r: Row)
    requires ValidRow(r)
    ensures FitsLayout(r)
    ensures ToInt32(r.id) == r.id
  {
  }

  /** The decimal spelling of a number, most significant digit first. */
  function Decimal(n: nat): (ds: seq<Byte>)
    ensures |ds| > 0 && AllDigits(ds)
  {
    if n < 10 then [(0x30 + n) as Byte] else Decimal(n / 10) + [(0x30 + n % 10) as Byte]
  }

  lemma {:induction false} DigitsValueOfDecimal(n: nat)
    ensures DigitsValue(Decimal(n)) == n
  {
    if n >= 10 {
      var ds := Decimal(n);
      assert ds[..|ds| - 1] == Decimal(n / 10);
      DigitsValueOfDecimal(n / 10);
    }
  }

  lemma {:induction false} LeadingDigitsOfDigits(ds: seq<Byte>)
    requires AllDigits(ds)
    ensures LeadingDigits(ds) == ds
  {
    if |ds| > 0 {
      LeadingDigitsOfDigits(ds[1..]);
    }
  }

  /** atoi reads back the decimal spelling of every non-negative `int`. */
  lemma AtoiDecimal(n: nat)
    requires n <= INT32_MAX
    ensures Atoi(Decimal(n)) == n
  {
    DigitsValueOfDecimal(n);
    AtoiOfDigits(Decimal(n));
  }

  lemma AtoiOfDigits(ds: seq<Byte>)
    requires |ds| > 0 && AllDigits(ds) && DigitsValue(ds) <= INT32_MAX
    ensures Atoi(ds) == DigitsValue(ds)
  {
    assert SkipSpace(ds) == ds && !(ds[0] == 0x2D || ds[0] == 0x2B) by {
      assert IsDigit(ds[0]);
    }
    LeadingDigitsOfDigits(ds);
    var v: int := DigitsValue(ds);
    assert Atoi(ds) == ToInt32(v);
    assert IsInt32(v);
  }

  /** Every valid row whose strings are tokens is accepted by the statement
      "insert <id> <username> <email>" and comes out unchanged. */
  lemma PrepareAcceptsValidRows(r: Row, keyword: seq<Byte>)
    requires ValidRow(r) && IsToken(keyword) && IsToken(r.username) && IsToken(r.email)
    ensures PrepareInsert([keyword, Decimal(r.id), r.username, r.email]) == PrepareSuccess(r)
  {
    AtoiDecimal(r.id);
    var d := Decimal(r.id);
    assert IsToken(d) by {
      forall k | 0 <= k < |d| ensures d[k] != 0 && d[k] != 0x20 {
        assert IsDigit(d[k]);
      }
    }
  }
}
