/**
 The text `generate_minizinc_model` returns, and the text the emitted
 program's `output` item prints once a solver has assigned its variables.

 Both are rendered from the abstract `MznModel` / `Schedule` and read back by
 small parsers; the round-trip lemmas say that nothing is lost or invented by
 the rendering: every number, every constraint and every pair can be
 recovered from the text, in order.

 Proofs here never let the solver rediscover how concatenations associate:
 each such step goes through `AppendAssoc` and its siblings in `Text`.
 */
module MinizincText {
  import opened Results
  import opened Text
  import opened MemBlocks
  import opened AllocationFinder
  import opened MinizincModel

  // ---------------------------------------------------------------- constraint lines

  /** The literal parts of the first f-string of the dependency loop (`posX[j] + sizeX[j] >= posX[i] + op_cost[i]`). */
  const LifetimeLits: seq<string> := ["constraint posX[", "] + sizeX[", "] >= posX[", "] + op_cost[", "];"]

  /** The literal parts of the second f-string (`posX[j] <= posX[i]`). */
  const PrecedesLits: seq<string> := ["constraint posX[", "] <= posX[", "];"]

  /** One line of the lifetime section, as the dependency loop's f-strings write it. */
  function ConstraintText(c: Constraint): (s: string)
    ensures "constraint posX[" <= s
  {
    match c
    case Lifetime(j, i) => Fill(LifetimeLits, [j, j, i, i])
    case Precedes(j, i) => Fill(PrecedesLits, [j, i])
  }

  /** Reads one constraint line at the front of `s`; the repeated indices of a lifetime line must agree. */
  function ParseConstraint(s: string): (r: Option<(Constraint, string)>)
    ensures r.Some? ==> |r.value.1| <= |s|
  {
    match ParseFill(LifetimeLits, s)
    case Some(p) =>
      if p.0[0] == p.0[1] && p.0[2] == p.0[3] then Some((Lifetime(p.0[0], p.0[2]), p.1)) else None
    case None =>
      var p :- ParseFill(PrecedesLits, s);
      Some((Precedes(p.0[0], p.0[1]), p.1))
  }

  lemma LitsSeparated()
    ensures Separated(LifetimeLits) && Separated(PrecedesLits)
  {
    assert LifetimeLits[1][0] == ']' && LifetimeLits[2][0] == ']' && LifetimeLits[3][0] == ']' && LifetimeLits[4][0] == ']';
    assert PrecedesLits[1][0] == ']' && PrecedesLits[2][0] == ']';
  }

  /** A precedence line is not mistaken for the start of a lifetime line. */
  lemma PrecedesIsNotLifetime(j: nat, i: nat, rest: string)
    ensures ParseFill(LifetimeLits, ConstraintText(Precedes(j, i)) + rest) == None
  {
    LitsSeparated();
    FillStep(PrecedesLits, [j, i], rest);
    var t := Fill(PrecedesLits[1..], [j, i][1..]) + rest;
    assert PrecedesLits[1..][0] <= t;
    assert t[2] == '<';
    assert LifetimeLits[1][2] == '+';
    assert PrecedesLits[0] == LifetimeLits[0];
    ParseFillMismatch(LifetimeLits, j, t);
  }

  /** A constraint line reads back as the constraint it was written from. */
  lemma ParseConstraintRoundTrip(c: Constraint, rest: string)
    ensures ParseConstraint(ConstraintText(c) + rest) == Some((c, rest))
  {
    LitsSeparated();
    match c
    case Lifetime(j, i) =>
      FillRoundTrip(LifetimeLits, [j, j, i, i], rest);
    case Precedes(j, i) =>
      PrecedesIsNotLifetime(j, i, rest);
      FillRoundTrip(PrecedesLits, [j, i], rest);
  }

  // ---------------------------------------------------------------- the lifetime section

  /** `"\n".join(lifetime_constraints)`. */
  function DependencyBlock(cs: seq<Constraint>): string {
    JoinMap(ConstraintText, "\n", cs)
  }

  /** Reads the (possibly empty) lifetime section: constraint lines separated by single newlines. */
  function ParseDependencyBlock(s: string): Option<(seq<Constraint>, string)> {
    if |s| > 0 && s[0] == 'c' then ParseSepList(ParseConstraint, "\n", s) else Some(([], s))
  }

  /** Constraint lines read back whatever follows them. */
  lemma ConstraintsInvert()
    ensures NonGrowing(ParseConstraint) && Inverts(ParseConstraint, ConstraintText, Anything)
  {
    forall c: Constraint, r: string | Accepts(Anything, r)
      ensures ParseConstraint(ConstraintText(c) + r) == Some((c, r))
    {
      ParseConstraintRoundTrip(c, r);
    }
  }

  /** Every constraint line starts with `c`. */
  lemma ParseConstraintNeedsC(t: string)
    requires |t| > 0 && t[0] != 'c'
    ensures ParseConstraint(t) == None
  {
    assert LifetimeLits[0][0] == 'c' && PrecedesLits[0][0] == 'c';
  }

  /** Text that can follow the lifetime section without being read as part of it. */
  predicate EndsSection(rest: string) {
    |rest| >= 2 && rest[0] == '\n' && rest[1] == '\n'
  }

  /** The lifetime section reads back as exactly the constraints, in order. */
  lemma DependencyBlockRoundTrip(cs: seq<Constraint>, rest: string)
    requires EndsSection(rest)
    ensures ParseDependencyBlock(DependencyBlock(cs) + rest) == Some((cs, rest))
  {
    if |cs| > 0 {
      ConstraintsInvert();
      JoinMapHead(ConstraintText, "\n", cs, rest);
      assert Expect("\n", rest) == Some(rest[1..]);
      ParseConstraintNeedsC(rest[1..]);
      JoinMapRoundTrip(ParseConstraint, ConstraintText, Anything, "\n", cs, rest);
    } else {
      AppendEmpty(rest);
    }
  }

  /** Occurrences of the newline character. */
  function Newlines(s: string): nat {
    multiset(s)['\n']
  }

  lemma NumeralOneLine(n: nat)
    ensures '\n' !in NatToString(n)
  {
    var s := NatToString(n);
    NatToStringDigits(n);
    assert forall k :: 0 <= k < |s| ==> s[k] != '\n';
  }

  lemma {:induction false} FillOneLine(lits: seq<string>, nums: seq<nat>)
    requires |lits| == |nums| + 1
    requires forall k :: 0 <= k < |lits| ==> '\n' !in lits[k]
    ensures '\n' !in Fill(lits, nums)
    decreases |nums|
  {
    if |nums| > 0 {
      NumeralOneLine(nums[0]);
      assert forall k :: 0 <= k < |lits[1..]| ==> lits[1..][k] == lits[k + 1];
      FillOneLine(lits[1..], nums[1..]);
    }
  }

  /** No literal part of a constraint line contains a line break. */
  lemma LitsOneLine()
    ensures forall k :: 0 <= k < |LifetimeLits| ==> '\n' !in LifetimeLits[k]
    ensures forall k :: 0 <= k < |PrecedesLits| ==> '\n' !in PrecedesLits[k]
  {
    assert '\n' !in LifetimeLits[0];
    assert '\n' !in LifetimeLits[1];
    assert '\n' !in LifetimeLits[2];
    assert '\n' !in LifetimeLits[3];
    assert '\n' !in LifetimeLits[4];
    assert PrecedesLits[0] == LifetimeLits[0];
    assert '\n' !in PrecedesLits[1];
    assert '\n' !in PrecedesLits[2];
  }

  /** No constraint line contains a line break. */
  lemma ConstraintTextOneLine(c: Constraint)
    ensures Newlines(ConstraintText(c)) == 0
  {
    LitsOneLine();
    match c
    case Lifetime(j, i) => FillOneLine(LifetimeLits, [j, j, i, i]);
    case Precedes(j, i) => FillOneLine(PrecedesLits, [j, i]);
  }

  /** A non-empty lifetime section spans exactly one line per constraint. */
  lemma {:induction false} DependencyBlockLines(cs: seq<Constraint>)
    requires |cs| > 0
    ensures Newlines(DependencyBlock(cs)) == |cs| - 1
    decreases |cs|
  {
    ConstraintTextOneLine(cs[0]);
    if |cs| > 1 {
      DependencyBlockLines(cs[1..]);
      var a, d := ConstraintText(cs[0]), DependencyBlock(cs[1..]);
      assert multiset(a + ("\n" + d)) == multiset(a) + (multiset("\n") + multiset(d));
    }
  }

  // ---------------------------------------------------------------- integer arrays

  /** The separator of the `sizeY` and `op_cost` array bodies. */
  const ItemSep := ",\n    "

  /** `",\n    ".join(str(y) for y in xs)`. */
  function Items(xs: seq<nat>): string {
    JoinMap(NatToString, ItemSep, xs)
  }

  /** Reads a (possibly empty) array body. */
  function ParseItems(s: string): Option<(seq<nat>, string)> {
    if |s| > 0 && IsDigit(s[0]) then ParseSepList(ParseNat, ItemSep, s) else Some(([], s))
  }

  /** An array body reads back as exactly its numbers. */
  lemma ItemsRoundTrip(xs: seq<nat>, rest: string)
    requires |rest| > 0 && rest[0] == '\n'
    ensures ParseItems(Items(xs) + rest) == Some((xs, rest))
  {
    if |xs| > 0 {
      NumeralsInvert();
      JoinMapHead(NatToString, ItemSep, xs, rest);
      assert ItemSep[0] == ',';
      JoinMapRoundTrip(ParseNat, NatToString, NonDigit, ItemSep, xs, rest);
    } else {
      AppendEmpty(rest);
    }
  }

  // ---------------------------------------------------------------- the program

  // The program template, cut at its seven replacement fields; one literal per
  // template line.
  const Preamble := "\n"
    + "% Automatically generated MiniZinc model from TVM AllocationFinder\n"
    + "include \"alldifferent.mzn\";\n"
    + "\n"
    + "int: n = "
  const AfterN := ";\n"
    + "int: memsize = "
  const AfterMemsize := ";\n"
    + "\n"
    + "array[1..n] of var 1.."
  const AfterSizeXBound := ": sizeX;  % Time dimension (lifetime)\n"
    + "array[1..n] of int: sizeY = [\n"
    + "    "
  const AfterSizeY := "\n"
    + "];\n"
    + "array[1..n] of int: op_cost = [\n"
    + "    "
  const AfterOpCost := "\n"
    + "];\n"
    + "\n"
    + "array[1..n] of var 0.."
  const AfterPosXBound := ": posX;  % Start time\n"
    + "array[1..n] of var 0..(memsize-1): posY;  % Memory offset\n"
    + "\n"
    + "constraint alldifferent([posX[i] | i in 1..n]); % No two allocations / computations at once\n"
    + "\n"
    + "% Total time is the max horizontal usage\n"
    + "var int: total_time;\n"
    + "\n"
    + "constraint forall(i in 1..n) (\n"
    + "    posY[i] + sizeY[i] <= memsize\n"
    + ");\n"
    + "\n"
    + "% Lifetime constraints respecting dependencies\n"
  const Postamble := "\n"
    + "\n"
    + "% Non-overlapping constraints\n"
    + "constraint forall(i, j in 1..n where i < j) (\n"
    + "    (posX[i] + sizeX[i] <= posX[j]) \\/\n"
    + "    (posX[j] + sizeX[j] <= posX[i]) \\/\n"
    + "    (posY[i] + sizeY[i] <= posY[j]) \\/\n"
    + "    (posY[j] + sizeY[j] <= posY[i])\n"
    + ");\n"
    + "\n"
    + "constraint total_time = max([posX[i] + sizeX[i] | i in 1..n]);\n"
    + "\n"
    + "solve minimize total_time;\n"
    + "\n"
    + OutputItem

  /**
   The `output` item.  Each `"\\n"` in it is the MiniZinc escape for a line
   break, so the solver prints a real line break there; `Output` writes it
   as `'\n'`.
   */
  const OutputItem := "output [\n"
    + OutputTotalTime
    + "  \"positions = [\", \n"
    + "  concat([\"[\" ++ show(posX[i]) ++ \",\" ++ show(posY[i]) ++ \"]\" ++ if i != n then \", \" else \"\" endif | i in 1..n]), \n"
    + OutputListEnd
    + "  \"sizes = [\",\n"
    + "  concat([\"[\" ++ show(sizeX[i]) ++ \",\" ++ show(sizeY[i]) ++ \"]\" ++ if i != n then \", \" else \"\" endif | i in 1..n ]),\n"
    + OutputListEnd
    + "];\n"

  /** The output item's first line: `total_time`, then a line break. */
  const OutputTotalTime := "  \"total_time = \", show(total_time), \"\\n\",\n"

  /** The line that closes each list of pairs: `]`, then a line break. */
  const OutputListEnd := "  \"]\\n\",\n"

  /**
   The output item prints `total_time` then a line break, and each list of
   pairs then `]` and a line break, as `Output` does: each break is the
   two-character MiniZinc escape `\\n` inside a string literal.
   */
  lemma OutputItemBreaks()
    ensures OutputTotalTime[|OutputTotalTime| - 6..] == "\"\\n\",\n"
    ensures OutputListEnd[2..] == "\"]\\n\",\n"
  {
  }

  /** The literal stretches of a program template, between its replacement fields. */
  datatype Template = Template(
    preamble: string, afterN: string, afterMemsize: string, afterSizeXBound: string,
    afterSizeY: string, afterOpCost: string, afterPosXBound: string, postamble: string)

  const Program := Template(Preamble, AfterN, AfterMemsize, AfterSizeXBound, AfterSizeY, AfterOpCost, AfterPosXBound, Postamble)

  /** Text that cannot be read as the continuation of a numeral. */
  predicate EndsNumeral(s: string) {
    |s| > 0 && !IsDigit(s[0])
  }

  /**
   What makes a template readable: each number is followed by a non-digit,
   each array body by a line break, and the lifetime section by a blank line.
   */
  predicate Readable(p: Template) {
    && EndsNumeral(p.afterN) && EndsNumeral(p.afterMemsize) && EndsNumeral(p.afterSizeXBound)
    && EndsNumeral(p.afterPosXBound)
    && |p.afterSizeY| > 0 && p.afterSizeY[0] == '\n'
    && |p.afterOpCost| > 0 && p.afterOpCost[0] == '\n'
    && EndsSection(p.postamble)
  }

  lemma NumeralsEndInProgram()
    ensures EndsNumeral(AfterN) && EndsNumeral(AfterMemsize)
    ensures EndsNumeral(AfterSizeXBound) && EndsNumeral(AfterPosXBound)
  {
    assert AfterN[0] == ';' && AfterMemsize[0] == ';';
    assert AfterSizeXBound[0] == ':';
    assert AfterPosXBound[0] == ':';
  }

  lemma SectionsEndInProgram()
    ensures |AfterSizeY| > 0 && AfterSizeY[0] == '\n'
    ensures |AfterOpCost| > 0 && AfterOpCost[0] == '\n'
    ensures EndsSection(Postamble)
  {
    assert AfterSizeY[0] == '\n' && AfterOpCost[0] == '\n';
    assert Postamble[0] == '\n' && Postamble[1] == '\n';
  }

  lemma ProgramReadable()
    ensures Readable(Program)
  {
    NumeralsEndInProgram();
    SectionsEndInProgram();
  }

  /** The template `p` filled in with the model `m`; both bounds print `m.bound`. */
  function RenderWith(p: Template, m: MznModel): string {
    var t8 := p.afterPosXBound + (DependencyBlock(m.constraints) + p.postamble);
    var t7 := p.afterOpCost + (NatToString(m.bound) + t8);
    var t6 := p.afterSizeY + (Items(m.opCost) + t7);
    var t5 := p.afterSizeXBound + (Items(m.sizeY) + t6);
    var t4 := p.afterMemsize + (NatToString(m.bound) + t5);
    var t3 := p.afterN + (NatToString(m.memsize) + t4);
    p.preamble + (NatToString(m.n) + t3)
  }

  /** The literal `lit` followed by a number. */
  function LitNat(lit: string, s: string): (r: Option<(nat, string)>)
    ensures r.Some? ==> |r.value.1| < |s|
  {
    var t :- Expect(lit, s);
    ParseNat(t)
  }

  lemma LitNatRoundTrip(lit: string, n: nat, rest: string)
    requires EndsNumeral(rest)
    ensures LitNat(lit, lit + (NatToString(n) + rest)) == Some((n, rest))
  {
    ExpectRoundTrip(lit, NatToString(n) + rest);
    ParseNatRoundTrip(n, rest);
  }

  /** Reads text of the shape `RenderWith(p, _)`; the two bounds must agree. */
  function ReadWith(p: Template, s: string): Option<MznModel> {
    var n :- LitNat(p.preamble, s);
    var memsize :- LitNat(p.afterN, n.1);
    var bound :- LitNat(p.afterMemsize, memsize.1);
    var a :- Expect(p.afterSizeXBound, bound.1);
    var sizeY :- ParseItems(a);
    var b :- Expect(p.afterSizeY, sizeY.1);
    var opCost :- ParseItems(b);
    var bound2 :- LitNat(p.afterOpCost, opCost.1);
    var c :- Expect(p.afterPosXBound, bound2.1);
    var cs :- ParseDependencyBlock(c);
    if bound2.0 == bound.0 && cs.1 == p.postamble then
      Some(MznModel(n.0, memsize.0, bound.0, sizeY.0, opCost.0, cs.0))
    else None
  }

  lemma {:induction false} RenderWithRoundTrip(p: Template, m: MznModel)
    requires Readable(p)
    ensures ReadWith(p, RenderWith(p, m)) == Some(m)
  {
    var t8 := p.afterPosXBound + (DependencyBlock(m.constraints) + p.postamble);
    var t7 := p.afterOpCost + (NatToString(m.bound) + t8);
    var t6 := p.afterSizeY + (Items(m.opCost) + t7);
    var t5 := p.afterSizeXBound + (Items(m.sizeY) + t6);
    var t4 := p.afterMemsize + (NatToString(m.bound) + t5);
    var t3 := p.afterN + (NatToString(m.memsize) + t4);
    LitNatRoundTrip(p.preamble, m.n, t3);
    LitNatRoundTrip(p.afterN, m.memsize, t4);
    LitNatRoundTrip(p.afterMemsize, m.bound, t5);
    ExpectRoundTrip(p.afterSizeXBound, Items(m.sizeY) + t6);
    ItemsRoundTrip(m.sizeY, t6);
    ExpectRoundTrip(p.afterSizeY, Items(m.opCost) + t7);
    ItemsRoundTrip(m.opCost, t7);
    LitNatRoundTrip(p.afterOpCost, m.bound, t8);
    ExpectRoundTrip(p.afterPosXBound, DependencyBlock(m.constraints) + p.postamble);
    DependencyBlockRoundTrip(m.constraints, p.postamble);
  }

  /**
   The string `generate_minizinc_model` returns for the model `m`.  The text
   determines the model: every number and constraint reads back.
   */
  function Render(m: MznModel): (s: string)
    ensures ReadModel(s) == Some(m)
  {
    ProgramReadable();
    RenderWithRoundTrip(Program, m);
    RenderWith(Program, m)
  }

  /** Reads a program of the shape `Render` writes. */
  function ReadModel(s: string): Option<MznModel> {
    ReadWith(Program, s)
  }

  /**
   For a generated model the program states n blocks and a `sizeX`/`posX`
   bound of 10n, and its lifetime section has two lines per `depends_on` entry.
   */
  lemma GeneratedProgram(st: Finder)
    requires Valid(st) && Generate(st).Success?
    ensures var m := Generate(st).value;
      && m.n == |Flatten(st)| && m.bound == 10 * m.n
      && (DepCount(st.arena, Flatten(st)) > 0 ==> Newlines(DependencyBlock(m.constraints)) == 2 * DepCount(st.arena, Flatten(st)) - 1)
  {
    var m := Generate(st).value;
    if DepCount(st.arena, Flatten(st)) > 0 {
      DependencyBlockLines(m.constraints);
    }
  }

  // ---------------------------------------------------------------- the output item

  /** `"[" ++ show(x) ++ "," ++ show(y) ++ "]"`. */
  function PairText(x: int, y: int): (s: string)
    ensures |s| > 0 && s[0] == '['
  {
    "[" + (IntToString(x) + ("," + (IntToString(y) + "]")))
  }

  function PairTextOf(p: (int, int)): string {
    PairText(p.0, p.1)
  }

  /** One element of the `concat` comprehension: the pair, then ", " unless it is element n. */
  function PairItem(xs: seq<int>, ys: seq<int>, i: nat): string
    requires |xs| == |ys| && 1 <= i <= |xs|
  {
    PairText(xs[i - 1], ys[i - 1]) + (if i != |xs| then ", " else "")
  }

  /** The elements `i..n` of the comprehension, concatenated. */
  function PairsFrom(xs: seq<int>, ys: seq<int>, i: nat): string
    requires |xs| == |ys| && 1 <= i <= |xs| + 1
    decreases |xs| + 1 - i
  {
    if i > |xs| then "" else PairItem(xs, ys, i) + PairsFrom(xs, ys, i + 1)
  }

  function ShowPairs(xs: seq<int>, ys: seq<int>): string
    requires |xs| == |ys|
  {
    PairsFrom(xs, ys, 1)
  }

  /**
   The text the `output` item prints for an assignment of the decision
   variables.  It lists exactly n `[posX,posY]` pairs and n `[sizeX,sizeY]`
   pairs, in block order, and nothing else: all of it reads back.
   */
  function Output(m: MznModel, s: Schedule): (r: string)
    requires WellSized(m) && |s.posX| == m.n && |s.posY| == m.n && |s.sizeX| == m.n
    ensures ReadOutput(r) == Some(Printed(s.totalTime, s.posX, s.posY, s.sizeX, m.sizeY))
  {
    var t3 := ShowPairs(s.sizeX, m.sizeY) + "]\n";
    var t2 := "]\nsizes = [" + t3;
    var t1 := ShowPairs(s.posX, s.posY) + t2;
    var t0 := "\npositions = [" + t1;
    ExpectRoundTrip("total_time = ", IntToString(s.totalTime) + t0);
    ParseIntRoundTrip(s.totalTime, t0);
    ExpectRoundTrip("\npositions = [", t1);
    ShowPairsRoundTrip(s.posX, s.posY, t2);
    ExpectRoundTrip("]\nsizes = [", t3);
    ShowPairsRoundTrip(s.sizeX, m.sizeY, "]\n");
    AppendEmpty("]\n");
    ExpectRoundTrip("]\n", "");
    Unzip(s.posX, s.posY);
    Unzip(s.sizeX, m.sizeY);
    "total_time = " + (IntToString(s.totalTime) + t0)
  }

  /** The pairs `(xs[k], ys[k])`, in order. */
  function Zip(xs: seq<int>, ys: seq<int>): (ps: seq<(int, int)>)
    requires |xs| == |ys|
    ensures |ps| == |xs|
  {
    seq(|xs|, k requires 0 <= k < |xs| => (xs[k], ys[k]))
  }

  function Firsts(ps: seq<(int, int)>): (xs: seq<int>)
    ensures |xs| == |ps|
  {
    seq(|ps|, k requires 0 <= k < |ps| => ps[k].0)
  }

  function Seconds(ps: seq<(int, int)>): (ys: seq<int>)
    ensures |ys| == |ps|
  {
    seq(|ps|, k requires 0 <= k < |ps| => ps[k].1)
  }

  /** Both columns can be recovered from the pairs. */
  lemma Unzip(xs: seq<int>, ys: seq<int>)
    requires |xs| == |ys|
    ensures Firsts(Zip(xs, ys)) == xs && Seconds(Zip(xs, ys)) == ys
  {
  }

  /** The comprehension prints the pairs joined by `", "`. */
  lemma {:induction false} PairsFromJoin(xs: seq<int>, ys: seq<int>, i: nat)
    requires |xs| == |ys| && 1 <= i <= |xs| + 1
    ensures PairsFrom(xs, ys, i) == JoinMap(PairTextOf, ", ", Zip(xs, ys)[i - 1..])
    decreases |xs| + 1 - i
  {
    var z := Zip(xs, ys);
    if i == |xs| {
      LastSlice(z);
      AppendEmpty(PairText(xs[i - 1], ys[i - 1]));
    } else if i < |xs| {
      PairsFromJoin(xs, ys, i + 1);
      assert z[i - 1..][1..] == z[i..];
      AppendAssoc(PairText(xs[i - 1], ys[i - 1]), ", ", PairsFrom(xs, ys, i + 1));
    }
  }

  function ParsePair(s: string): (r: Option<((int, int), string)>)
    ensures r.Some? ==> |r.value.1| < |s|
  {
    var a :- Expect("[", s);
    var x :- ParseInt(a);
    var b :- Expect(",", x.1);
    var y :- ParseInt(b);
    var c :- Expect("]", y.1);
    Some(((x.0, y.0), c))
  }

  /** Reads a (possibly empty) list of pairs separated by `", "`. */
  function ParsePairs(s: string): Option<(seq<(int, int)>, string)> {
    if |s| > 0 && s[0] == '[' then ParseSepList(ParsePair, ", ", s) else Some(([], s))
  }

  /** What a reader of the printed solution recovers. */
  datatype Printed = Printed(totalTime: int, posX: seq<int>, posY: seq<int>, sizeX: seq<int>, sizeY: seq<int>)

  function ReadOutput(s: string): Option<Printed> {
    var a :- Expect("total_time = ", s);
    var t :- ParseInt(a);
    var b :- Expect("\npositions = [", t.1);
    var p :- ParsePairs(b);
    var c :- Expect("]\nsizes = [", p.1);
    var q :- ParsePairs(c);
    var d :- Expect("]\n", q.1);
    if d == "" then Some(Printed(t.0, Firsts(p.0), Seconds(p.0), Firsts(q.0), Seconds(q.0))) else None
  }

  lemma ParsePairRoundTrip(x: int, y: int, rest: string)
    ensures ParsePair(PairText(x, y) + rest) == Some(((x, y), rest))
  {
    var sx, sy := IntToString(x), IntToString(y);
    AppendAssoc("[", sx + ("," + (sy + "]")), rest);
    AppendAssoc(sx, "," + (sy + "]"), rest);
    AppendAssoc(",", sy + "]", rest);
    AppendAssoc(sy, "]", rest);
    ExpectRoundTrip("[", sx + ("," + (sy + ("]" + rest))));
    ParseIntRoundTrip(x, "," + (sy + ("]" + rest)));
    ExpectRoundTrip(",", sy + ("]" + rest));
    ParseIntRoundTrip(y, "]" + rest);
    ExpectRoundTrip("]", rest);
  }

  /** Pairs read back whatever follows them. */
  lemma PairsInvert()
    ensures NonGrowing(ParsePair) && Inverts(ParsePair, PairTextOf, Anything)
  {
    forall p: (int, int), r: string | Accepts(Anything, r)
      ensures ParsePair(PairTextOf(p) + r) == Some((p, r))
    {
      ParsePairRoundTrip(p.0, p.1, r);
    }
  }

  /** A printed list of pairs reads back as exactly its pairs. */
  lemma ShowPairsRoundTrip(xs: seq<int>, ys: seq<int>, rest: string)
    requires |xs| == |ys|
    requires |rest| > 0 && rest[0] == ']'
    ensures ParsePairs(ShowPairs(xs, ys) + rest) == Some((Zip(xs, ys), rest))
  {
    var z := Zip(xs, ys);
    PairsFromJoin(xs, ys, 1);
    assert z[0..] == z;
    if |xs| > 0 {
      PairsInvert();
      JoinMapHead(PairTextOf, ", ", z, rest);
      JoinMapRoundTrip(ParsePair, PairTextOf, Anything, ", ", z, rest);
    } else {
      assert z == [];
      AppendEmpty(rest);
    }
  }

  /** No separator follows the last pair: a non-empty list ends with `]`. */
  lemma {:induction false} NoTrailingSeparator(xs: seq<int>, ys: seq<int>, i: nat)
    requires |xs| == |ys| && 1 <= i <= |xs|
    ensures var t := PairsFrom(xs, ys, i); |t| > 0 && t[|t| - 1] == ']'
    decreases |xs| - i
  {
    if i < |xs| {
      NoTrailingSeparator(xs, ys, i + 1);
    } else {
      AppendEmpty(PairText(xs[i - 1], ys[i - 1]));
    }
  }
}
