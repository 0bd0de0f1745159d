/**
 The small amount of text the modelled code produces or consumes: Python's
 `str` of a non-negative integer and of a tuple of integers, `", ".join`, and
 the decimal reading that undoes `str`.
 */
module Text {
  import opened Results

  predicate IsDigit(c: char) {
    '0' <= c <= '9'
  }

  predicate AllDigits(s: string) {
    forall k :: 0 <= k < |s| ==> IsDigit(s[k])
  }

  function DigitChar(d: nat): (c: char)
    requires d < 10
    ensures IsDigit(c)
    ensures c as int - '0' as int == d
  {
    ['0', '1', '2', '3', '4', '5', '6', '7', '8', '9'][d]
  }

  /** Python's `str(n)` for a non-negative integer: shortest decimal numeral. */
  function NatToString(n: nat): (s: string)
    ensures |s| > 0 && IsDigit(s[0])
    decreases n
  {
    if n < 10 then [DigitChar(n)] else NatToString(n / 10) + [DigitChar(n % 10)]
  }

  /** The numeral is all digits, without a leading zero. */
  lemma {:induction false} NatToStringDigits(n: nat)
    ensures AllDigits(NatToString(n))
    ensures |NatToString(n)| > 1 ==> NatToString(n)[0] != '0'
    decreases n
  {
    if n >= 10 {
      var t := NatToString(n / 10);
      NatToStringDigits(n / 10);
      assert NatToString(n) == t + [DigitChar(n % 10)];
      if |t| == 1 {
        assert t == [DigitChar(n / 10)];
      }
    }
  }

  /** The value of a decimal digit (0 for any other character). */
  function DigitValue(c: char): (v: nat)
    ensures v < 10
  {
    if IsDigit(c) then c as int - '0' as int else 0
  }

  /** The number a string of decimal digits denotes (most significant first). */
  function DigitsValue(s: string): nat {
    if |s| == 0 then 0 else DigitsValue(s[..|s| - 1]) * 10 + DigitValue(s[|s| - 1])
  }

  lemma {:induction false} DigitsValueOfNatToString(n: nat)
    ensures DigitsValue(NatToString(n)) == n
    decreases n
  {
    if n >= 10 {
      var s := NatToString(n);
      assert s[..|s| - 1] == NatToString(n / 10);
      DigitsValueOfNatToString(n / 10);
    }
  }

  /** Length of the longest prefix of `s` made of digits. */
  function DigitSpan(s: string): (k: nat)
    ensures k <= |s|
  {
    if |s| > 0 && IsDigit(s[0]) then 1 + DigitSpan(s[1..]) else 0
  }

  /** `DigitSpan` measures a run of digits, and the run is maximal. */
  lemma {:induction false} DigitSpanMaximal(s: string)
    ensures AllDigits(s[..DigitSpan(s)])
    ensures DigitSpan(s) < |s| ==> !IsDigit(s[DigitSpan(s)])
    decreases |s|
  {
    if |s| > 0 && IsDigit(s[0]) {
      var k := DigitSpan(s);
      DigitSpanMaximal(s[1..]);
      assert s[..k] == [s[0]] + s[1..][..k - 1];
    }
  }

  /** Reads a maximal, non-empty run of digits at the front of `s`. */
  function ParseNat(s: string): (r: Option<(nat, string)>)
    ensures r.Some? ==> |r.value.1| < |s|
  {
    var k := DigitSpan(s);
    if k == 0 then None else Some((DigitsValue(s[..k]), s[k..]))
  }

  lemma {:induction false} DigitSpanOfDigitsThen(d: string, rest: string)
    requires AllDigits(d)
    requires |rest| > 0 ==> !IsDigit(rest[0])
    ensures DigitSpan(d + rest) == |d|
    decreases |d|
  {
    if |d| > 0 {
      assert (d + rest)[1..] == d[1..] + rest;
      DigitSpanOfDigitsThen(d[1..], rest);
    } else {
      assert d + rest == rest;
    }
  }

  /** Reading back what `NatToString` wrote gives the number and the rest of the text. */
  lemma ParseNatRoundTrip(n: nat, rest: string)
    requires |rest| > 0 ==> !IsDigit(rest[0])
    ensures ParseNat(NatToString(n) + rest) == Some((n, rest))
  {
    var d := NatToString(n);
    NatToStringDigits(n);
    DigitSpanOfDigitsThen(d, rest);
    assert (d + rest)[..|d|] == d;
    assert (d + rest)[|d|..] == rest;
    DigitsValueOfNatToString(n);
  }

  /** `str` is injective on non-negative integers. */
  lemma NatToStringInjective(a: nat, b: nat)
    requires NatToString(a) == NatToString(b)
    ensures a == b
  {
    DigitsValueOfNatToString(a);
    DigitsValueOfNatToString(b);
  }

  /** The numbers of a tuple, as `str` writes them between the parentheses. */
  function TupleItems(xs: seq<nat>): string {
    if |xs| == 0 then ""
    else if |xs| == 1 then NatToString(xs[0])
    else NatToString(xs[0]) + ", " + TupleItems(xs[1..])
  }

  /** Python's `str` of a tuple of non-negative integers: `()`, `(4,)`, `(1, 3, 128, 128)`. */
  function TupleText(xs: seq<nat>): (s: string)
    ensures |s| >= 2 && s[0] == '(' && s[|s| - 1] == ')'
  {
    if |xs| == 1 then "(" + NatToString(xs[0]) + ",)" else "(" + TupleItems(xs) + ")"
  }

  lemma TupleTextExamples()
    ensures TupleText([]) == "()"
    ensures TupleText([16]) == "(16,)"
    ensures TupleText([1, 2]) == "(1, 2)"
    ensures TupleText([1, 6]) == "(1, 6)"
  {
    assert NatToString(16) == "16";
  }

  /** Python's `str` of an integer: a minus sign before the numeral of a negative value. */
  function IntToString(i: int): (s: string)
    ensures |s| > 0
  {
    if i < 0 then "-" + NatToString(-i) else NatToString(i)
  }

  /** Reads an optionally negative decimal integer at the front of `s`. */
  function ParseInt(s: string): (r: Option<(int, string)>)
    ensures r.Some? ==> |r.value.1| < |s|
  {
    if |s| > 0 && s[0] == '-' then
      match ParseNat(s[1..])
      case None => None
      case Some((n, rest)) => var v: int := -(n as int); Some((v, rest))
    else
      match ParseNat(s)
      case None => None
      case Some((n, rest)) => Some((n, rest))
  }

  lemma ParseIntNegative(s: string, i: int, rest: string)
    requires i < 0 && |s| > 0 && s[0] == '-' && ParseNat(s[1..]) == Some((-i, rest))
    ensures ParseInt(s) == Some((i, rest))
  {
  }

  lemma ParseIntNonNegative(s: string, n: nat, rest: string)
    requires |s| > 0 && IsDigit(s[0]) && ParseNat(s) == Some((n, rest))
    ensures ParseInt(s) == Some((n, rest))
  {
  }

  lemma ParseIntRoundTrip(i: int, rest: string)
    requires |rest| > 0 ==> !IsDigit(rest[0])
    ensures ParseInt(IntToString(i) + rest) == Some((i, rest))
  {
    var d := NatToString(if i < 0 then -i else i);
    ParseNatRoundTrip(if i < 0 then -i else i, rest);
    if i < 0 {
      AppendAssoc("-", d, rest);
      DropPrefix("-", d + rest);
      ParseIntNegative("-" + (d + rest), i, rest);
    } else {
      ParseIntNonNegative(d + rest, i, rest);
    }
  }

  /** The rest of `s` after the literal `lit`, when `s` starts with it. */
  function Expect(lit: string, s: string): (r: Option<string>)
    ensures r.Some? ==> |r.value| == |s| - |lit|
  {
    if lit <= s then Some(s[|lit|..]) else None
  }

  /** `Expect` succeeds exactly on text that starts with `lit`, and then gives what follows it. */
  lemma ExpectMeaning(lit: string, s: string)
    ensures Expect(lit, s).Some? <==> lit <= s
    ensures Expect(lit, s).Some? ==> s == lit + Expect(lit, s).value
  {
    if lit <= s {
      assert s == s[..|lit|] + s[|lit|..];
    }
  }

  lemma ExpectRoundTrip(lit: string, rest: string)
    ensures Expect(lit, lit + rest) == Some(rest)
  {
    assert lit <= lit + rest;
    assert (lit + rest)[|lit|..] == rest;
  }

  /**
   An f-string whose fields are all non-negative integers: the literal parts
   `lits` with the numerals of `nums` between them.
   */
  function Fill(lits: seq<string>, nums: seq<nat>): (s: string)
    requires |lits| == |nums| + 1
    ensures lits[0] <= s
    decreases |nums|
  {
    if |nums| == 0 then lits[0] else lits[0] + (NatToString(nums[0]) + Fill(lits[1..], nums[1..]))
  }

  /** Reads text of the shape `Fill(lits, _)` at the front of `s`: the numbers and the rest. */
  function ParseFill(lits: seq<string>, s: string): (r: Option<(seq<nat>, string)>)
    requires |lits| > 0
    ensures r.Some? ==> |r.value.0| == |lits| - 1 && |r.value.1| <= |s|
    decreases |lits|
  {
    var t :- Expect(lits[0], s);
    if |lits| == 1 then Some(([], t))
    else
      var p :- ParseNat(t);
      var q :- ParseFill(lits[1..], p.1);
      Some(([p.0] + q.0, q.1))
  }

  /** Every literal part but the first begins with a non-digit, so each numeral ends where it should. */
  predicate Separated(lits: seq<string>) {
    forall k :: 1 <= k < |lits| ==> |lits[k]| > 0 && !IsDigit(lits[k][0])
  }

  lemma SeparatedTail(lits: seq<string>)
    requires |lits| > 0 && Separated(lits)
    ensures Separated(lits[1..])
  {
    forall k | 1 <= k < |lits[1..]| ensures |lits[1..][k]| > 0 && !IsDigit(lits[1..][k][0]) {
      assert lits[1..][k] == lits[k + 1];
    }
  }

  /** One step of `Fill`: the first literal, the first numeral, then the rest. */
  lemma FillStep(lits: seq<string>, nums: seq<nat>, rest: string)
    requires |lits| == |nums| + 1 && |nums| > 0 && Separated(lits)
    ensures var t := Fill(lits[1..], nums[1..]) + rest;
      && Fill(lits, nums) + rest == lits[0] + (NatToString(nums[0]) + t)
      && |t| > 0 && !IsDigit(t[0])
  {
    var f := Fill(lits[1..], nums[1..]);
    AppendAssoc(lits[0], NatToString(nums[0]) + f, rest);
    AppendAssoc(NatToString(nums[0]), f, rest);
    assert lits[1..][0] <= f;
    assert (f + rest)[0] == lits[1][0];
  }

  /** The inductive step of `FillRoundTrip`, given the claim for the tail. */
  lemma FillConsRoundTrip(lits: seq<string>, nums: seq<nat>, rest: string)
    requires |lits| == |nums| + 1 && |nums| > 0 && Separated(lits)
    requires ParseFill(lits[1..], Fill(lits[1..], nums[1..]) + rest) == Some((nums[1..], rest))
    ensures ParseFill(lits, Fill(lits, nums) + rest) == Some((nums, rest))
  {
    var t := Fill(lits[1..], nums[1..]) + rest;
    FillStep(lits, nums, rest);
    ExpectRoundTrip(lits[0], NatToString(nums[0]) + t);
    ParseNatRoundTrip(nums[0], t);
    SliceCons(nums, 0);
  }

  /** What `Fill` writes, `ParseFill` reads back. */
  lemma {:induction false} FillRoundTrip(lits: seq<string>, nums: seq<nat>, rest: string)
    requires |lits| == |nums| + 1 && Separated(lits)
    ensures ParseFill(lits, Fill(lits, nums) + rest) == Some((nums, rest))
    decreases |nums|
  {
    if |nums| == 0 {
      ExpectRoundTrip(lits[0], rest);
    } else {
      SeparatedTail(lits);
      FillRoundTrip(lits[1..], nums[1..], rest);
      FillConsRoundTrip(lits, nums, rest);
    }
  }

  /** Text whose second literal part does not follow the first numeral is not of the shape of `lits`. */
  lemma ParseFillMismatch(lits: seq<string>, n: nat, t: string)
    requires |lits| >= 2
    requires |t| > 0 && !IsDigit(t[0]) && !(lits[1] <= t)
    ensures ParseFill(lits, lits[0] + (NatToString(n) + t)) == None
  {
    ExpectRoundTrip(lits[0], NatToString(n) + t);
    ParseNatRoundTrip(n, t);
    assert lits[1..][0] == lits[1];
  }

  // Separated lists: `sep.join(...)` and the reader that undoes it, for any
  // item format that reads back what it writes.

  /** `sep.join(show(x) for x in xs)`. */
  function JoinMap<T>(show: T -> string, sep: string, xs: seq<T>): string
    decreases |xs|
  {
    if |xs| == 0 then ""
    else if |xs| == 1 then show(xs[0])
    else show(xs[0]) + (sep + JoinMap(show, sep, xs[1..]))
  }

  /** An item reader never returns more text than it was given. */
  ghost predicate NonGrowing<T>(item: string -> Option<(T, string)>) {
    forall s :: item(s).Some? ==> |item(s).value.1| <= |s|
  }

  /**
   Reads one or more items separated by `sep`. A separator that is not
   followed by an item is left unread, together with everything after it.
   */
  function ParseSepList<T>(item: string -> Option<(T, string)>, sep: string, s: string): (r: Option<(seq<T>, string)>)
    requires |sep| > 0 && NonGrowing(item)
    ensures r.Some? ==> |r.value.0| > 0 && |r.value.1| <= |s|
    decreases |s|
  {
    var p :- item(s);
    match Expect(sep, p.1)
    case None => Some(([p.0], p.1))
    case Some(t) =>
      match ParseSepList(item, sep, t)
      case None => Some(([p.0], p.1))
      case Some(q) => Some(([p.0] + q.0, q.1))
  }

  /** Text that is empty or starts with a character `ok` accepts. */
  predicate Accepts(ok: char -> bool, r: string) {
    |r| == 0 || ok(r[0])
  }

  /** `item` reads back what `show` writes, whenever what follows starts acceptably. */
  ghost predicate Inverts<T(!new)>(item: string -> Option<(T, string)>, show: T -> string, ok: char -> bool) {
    forall x: T, r: string :: Accepts(ok, r) ==> item(show(x) + r) == Some((x, r))
  }

  /** `rest` does not continue a list: it is not a separator followed by an item. */
  predicate Stops<T>(item: string -> Option<(T, string)>, sep: string, rest: string) {
    match Expect(sep, rest)
    case None => true
    case Some(t) => item(t).None?
  }

  lemma JoinMapOneRoundTrip<T(!new)>(item: string -> Option<(T, string)>, show: T -> string, ok: char -> bool, sep: string, x: T, rest: string)
    requires |sep| > 0 && NonGrowing(item) && Inverts(item, show, ok)
    requires Accepts(ok, rest) && Stops(item, sep, rest)
    ensures ParseSepList(item, sep, JoinMap(show, sep, [x]) + rest) == Some(([x], rest))
  {
    assert item(show(x) + rest) == Some((x, rest));
  }

  lemma JoinMapConsRoundTrip<T(!new)>(item: string -> Option<(T, string)>, show: T -> string, ok: char -> bool, sep: string, xs: seq<T>, rest: string)
    requires |sep| > 0 && ok(sep[0]) && NonGrowing(item) && Inverts(item, show, ok)
    requires |xs| > 1
    requires ParseSepList(item, sep, JoinMap(show, sep, xs[1..]) + rest) == Some((xs[1..], rest))
    ensures ParseSepList(item, sep, JoinMap(show, sep, xs) + rest) == Some((xs, rest))
  {
    var a, d := show(xs[0]), JoinMap(show, sep, xs[1..]);
    var tail := d + rest;
    AppendAssoc(a, sep + d, rest);
    AppendAssoc(sep, d, rest);
    assert Accepts(ok, sep + tail);
    assert item(a + (sep + tail)) == Some((xs[0], sep + tail));
    ExpectRoundTrip(sep, tail);
    SliceCons(xs, 0);
  }

  /** A separated list reads back as exactly its items, provided the text after it does not continue it. */
  lemma {:induction false} JoinMapRoundTrip<T(!new)>(item: string -> Option<(T, string)>, show: T -> string, ok: char -> bool, sep: string, xs: seq<T>, rest: string)
    requires |sep| > 0 && ok(sep[0]) && NonGrowing(item) && Inverts(item, show, ok)
    requires |xs| > 0 && Accepts(ok, rest) && Stops(item, sep, rest)
    ensures ParseSepList(item, sep, JoinMap(show, sep, xs) + rest) == Some((xs, rest))
    decreases |xs|
  {
    if |xs| == 1 {
      assert xs == [xs[0]];
      JoinMapOneRoundTrip(item, show, ok, sep, xs[0], rest);
    } else {
      JoinMapRoundTrip(item, show, ok, sep, xs[1..], rest);
      JoinMapConsRoundTrip(item, show, ok, sep, xs, rest);
    }
  }

  /** A non-empty list starts with its first item. */
  lemma JoinMapHead<T>(show: T -> string, sep: string, xs: seq<T>, rest: string)
    requires |xs| > 0 && |show(xs[0])| > 0
    ensures (JoinMap(show, sep, xs) + rest)[0] == show(xs[0])[0]
  {
  }

  predicate NonDigit(c: char) {
    !IsDigit(c)
  }

  predicate Anything(c: char) {
    true
  }

  /** Numerals read back whenever a non-digit follows them. */
  lemma NumeralsInvert()
    ensures NonGrowing(ParseNat) && Inverts(ParseNat, NatToString, NonDigit)
  {
    forall x: nat, r: string | Accepts(NonDigit, r)
      ensures ParseNat(NatToString(x) + r) == Some((x, r))
    {
      ParseNatRoundTrip(x, r);
    }
  }

  // Sequence identities, stated once so that proofs about rendered text need
  // not rediscover them by reasoning about individual characters.

  lemma AppendAssoc<T>(a: seq<T>, b: seq<T>, c: seq<T>)
    ensures (a + b) + c == a + (b + c)
  {
  }

  lemma AppendEmpty<T>(a: seq<T>)
    ensures a + [] == a && [] + a == a
  {
  }

  lemma DropPrefix<T>(a: seq<T>, b: seq<T>)
    ensures (a + b)[|a|..] == b
  {
  }

  lemma SliceCons<T>(xs: seq<T>, k: nat)
    requires k < |xs|
    ensures [xs[k]] + xs[k + 1..] == xs[k..]
  {
  }

  lemma LastSlice<T>(xs: seq<T>)
    requires |xs| > 0
    ensures xs[|xs| - 1..] == [xs[|xs| - 1]]
  {
  }
}
