/**
 * The allow-list: ALLOWED_USER_IDS is a comma-separated list of user ids, read once
 * into a set; every handler does nothing for a user outside it.
 */
module Access {
  import opened Wrappers
  import opened Text

  /** The allow-list used when ALLOWED_USER_IDS is not set. */
  const DEFAULT_ALLOWED_USER_IDS: string := "6448246938"

  /** int(text) on a stripped text: an optional sign followed by at least one digit; None where int() raises. */
  function ParseInt(s: string): Option<int> {
    var body := if |s| > 0 && (s[0] == '+' || s[0] == '-') then s[1..] else s;
    if |body| > 0 && AllDigits(body) then
      Some(if |s| > 0 && s[0] == '-' then -(DigitsValue(body) as int) else DigitsValue(body))
    else None
  }

  /** str(n): a minus sign for negative numbers, then the digits without leading zeros. */
  function IntToString(n: int): (s: string)
    ensures |s| > 0 && !IsWhitespace(s[0]) && !IsWhitespace(s[|s| - 1])
    ensures ',' !in s
  {
    var digits := NatToDigits(if n < 0 then -n else n);
    assert ',' !in digits by {
      forall i | 0 <= i < |digits| ensures digits[i] != ',' { assert IsDigit(digits[i]); }
    }
    (if n < 0 then "-" else "") + digits
  }

  /** int(str(n)) == n. */
  lemma IntRoundTrip(n: int)
    ensures ParseInt(IntToString(n)) == Some(n)
  {
    var m: nat := if n < 0 then -n else n;
    var digits := NatToDigits(m);
    DigitsRoundTrip(m);
    var s := IntToString(n);
    if n < 0 {
      assert s == "-" + digits;
      assert s[0] == '-' && s[1..] == digits;
    } else {
      assert s == digits;
      assert IsDigit(s[0]) && s[0] != '+' && s[0] != '-';
    }
  }

  /** The id a part of the list gives, once stripped, if it reads as an integer. */
  function Entry(part: string): Option<int> {
    ParseInt(Strip(part))
  }

  /** x is on the list: some comma-separated part of text reads as x. */
  ghost predicate Listed(text: string, x: int) {
    exists p :: p in Split(text, ',') && Entry(p) == Some(x)
  }

  /** The ids the parts give, collected in order. */
  function IdsOf(parts: seq<string>): set<int> {
    if parts == [] then {}
    else IdsOf(parts[..|parts| - 1]) + (match Entry(parts[|parts| - 1]) case Some(n) => {n} case None => {})
  }

  /** An id is collected exactly when some part reads as it. */
  lemma {:induction false} IdsOfListed(parts: seq<string>, x: int)
    ensures x in IdsOf(parts) <==> exists p :: p in parts && Entry(p) == Some(x)
    decreases |parts|
  {
    if parts != [] {
      var init, last := parts[..|parts| - 1], parts[|parts| - 1];
      IdsOfListed(init, x);
      assert parts == init + [last];
      if exists p :: p in parts && Entry(p) == Some(x) {
        var p :| p in parts && Entry(p) == Some(x);
        assert p in init || p == last;
      }
    }
  }

  /**
   * parse_allowed_ids: every comma-separated part is stripped; the non-empty parts
   * that read as integers are kept, the others are dropped without complaint.
   */
  method ParseAllowedIds(text: string) returns (ids: set<int>)
    ensures ids == IdsOf(Split(text, ','))
    ensures forall x :: x in ids <==> Listed(text, x)
  {
    var parts := Split(text, ',');
    ids := {};
    for i := 0 to |parts|
      invariant ids == IdsOf(parts[..i])
    {
      assert parts[..i + 1][..i] == parts[..i];
      var part := Strip(parts[i]);
      if |part| > 0 {
        var n := ParseInt(part);
        if n.Some? {
          ids := ids + {n.value};
        }
      }
    }
    assert parts[..|parts|] == parts;
    forall x ensures x in ids <==> Listed(text, x) {
      IdsOfListed(parts, x);
    }
  }

  /** A part written by str(n), with no blanks around it, gives back n. */
  lemma EntryOfInt(n: int)
    ensures Entry(IntToString(n)) == Some(n)
  {
    StripUnpadded(IntToString(n));
    IntRoundTrip(n);
  }

  /** The list written as ",".join(str(x) for x in xs) lists exactly the ids in xs. */
  lemma JoinedIdsListed(xs: seq<int>, x: int)
    requires |xs| >= 1
    ensures Listed(Join(seq(|xs|, i requires 0 <= i < |xs| => IntToString(xs[i])), ','), x) <==> x in xs
  {
    var parts := seq(|xs|, i requires 0 <= i < |xs| => IntToString(xs[i]));
    JoinSplit(parts, ',');
    PartEntries(xs, parts, x);
  }

  /** Some part of the texts of xs reads as x exactly when x is in xs. */
  lemma PartEntries(xs: seq<int>, parts: seq<string>, x: int)
    requires |parts| == |xs| && forall i :: 0 <= i < |xs| ==> parts[i] == IntToString(xs[i])
    ensures (exists p :: p in parts && Entry(p) == Some(x)) <==> x in xs
  {
    if x in xs {
      var i :| 0 <= i < |xs| && xs[i] == x;
      EntryOfInt(xs[i]);
      assert parts[i] in parts;
    }
    if exists p :: p in parts && Entry(p) == Some(x) {
      var p :| p in parts && Entry(p) == Some(x);
      var i :| 0 <= i < |parts| && parts[i] == p;
      EntryOfInt(xs[i]);
    }
  }

  /** A blank part gives no id: it strips to the empty text, which int() rejects. */
  lemma {:induction false} BlankPartDropped(p: string)
    requires AllWhitespace(p)
    ensures Entry(p) == None
    decreases |p|
  {
    if |p| > 0 {
      assert TrimStart(p) == TrimStart(p[1..]);
      BlankPartDropped(p[1..]);
    }
  }

  /** Parts as the bot may meet them: " 7" gives 7, " -3" gives -3, blank and malformed parts give nothing. */
  lemma ExampleEntries()
    ensures Entry(" 7") == Some(7) && Entry(" ") == None && Entry("x") == None && Entry(" -3") == Some(-3)
  {
    PaddedSeven();
    assert Entry(" ") == None by {
      assert TrimStart(" ") == TrimStart("");
    }
    assert Entry("x") == None by {
      StripUnpadded("x");
    }
    PaddedMinusThree();
  }

  lemma PaddedSeven()
    ensures Entry(" 7") == Some(7)
  {
    assert " 7" == " " + "7" + "";
    StripPadded(" ", "7", "");
    assert DigitsValue("7") == 7 by { assert "7"[..0] == ""; }
  }

  lemma PaddedMinusThree()
    ensures Entry(" -3") == Some(-3)
  {
    assert " -3" == " " + "-3" + "";
    StripPadded(" ", "-3", "");
    assert "-3"[1..] == "3";
    assert DigitsValue("3") == 3 by { assert "3"[..0] == ""; }
  }

  /** The default allow-list holds the one id it spells out. */
  lemma DefaultAllowList(x: int)
    ensures Listed(DEFAULT_ALLOWED_USER_IDS, x) <==> x == 6448246938
  {
    DefaultIdText();
    var parts := seq(1, i requires 0 <= i < 1 => IntToString([6448246938][i]));
    assert parts == [DEFAULT_ALLOWED_USER_IDS];
    JoinedIdsListed([6448246938], x);
  }

  lemma DefaultIdText()
    ensures IntToString(6448246938) == DEFAULT_ALLOWED_USER_IDS
  {
    assert NatToDigits(6) == "6";
    assert NatToDigits(64) == "64";
    assert NatToDigits(644) == "644";
    assert NatToDigits(6448) == "6448";
    assert NatToDigits(64482) == "64482";
    assert NatToDigits(644824) == "644824";
    assert NatToDigits(6448246) == "6448246";
    assert NatToDigits(64482469) == "64482469";
    assert NatToDigits(644824693) == "644824693";
    assert NatToDigits(6448246938) == "6448246938";
  }

  /** is_allowed: there is a user and that user's id is on the list. */
  predicate IsAllowed(user: Option<int>, ids: set<int>) {
    user.Some? && user.value in ids
  }
}
