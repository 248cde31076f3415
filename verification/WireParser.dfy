/**
 `setWireValue` and `parseWireValueString` (includes/wf_markov.c:198-316). A C string is the sequence
 of characters before its NUL, so writing a NUL into it is cutting it short. `%lf` is modelled on
 unsigned decimal integers and `%d` on optionally negative ones.
 */
module WireParser {
  import opened Packets
  import opened WireValues
  import opened Markov

  // ---------- sscanf ----------

  predicate IsDigit(c: char) {
    '0' <= c <= '9'
  }

  ghost predicate AllDigits(s: string) {
    forall i :: 0 <= i < |s| ==> IsDigit(s[i])
  }

  predicate IsBlank(c: char) {
    c == ' ' || c == '\n' || c == '\t'
  }

  function TrimStart(s: string): (r: string)
    ensures |r| <= |s| && (r == [] || !IsBlank(r[0]))
  {
    if s != [] && IsBlank(s[0]) then TrimStart(s[1..]) else s
  }

  /** The digits a number starts with. */
  function Digits(s: string): (r: string)
    ensures r <= s && AllDigits(r)
  {
    if s != [] && IsDigit(s[0]) then [s[0]] + Digits(s[1..]) else []
  }

  function NatOf(digits: string): nat
    requires AllDigits(digits)
  {
    if digits == [] then 0
    else
      var n := |digits| - 1;
      10 * NatOf(digits[..n]) + (digits[n] as int - '0' as int)
  }

  /** A number and what follows it. */
  function ScanNat(s: string): Option<(nat, string)> {
    var t := TrimStart(s);
    var ds := Digits(t);
    if ds == [] then None else Some((NatOf(ds), t[|ds|..]))
  }

  /** sscanf(s, "%lf+%lf", ..): fails without a first number; the second defaults to 0. */
  function ScanValue(s: string): Option<(nat, nat)> {
    match ScanNat(s)
    case None => None
    case Some((value, rest)) =>
      if rest != [] && rest[0] == '+' then
        match ScanNat(rest[1..])
        case None => Some((value, 0))
        case Some((plus, _)) => Some((value, plus))
      else Some((value, 0))
  }

  /** sscanf(s, "%d", ..), on a variable that holds 0. */
  function ScanInt(s: string): int {
    var t := TrimStart(s);
    if t != [] && t[0] == '-' then 0 - NatOf(Digits(t[1..])) else NatOf(Digits(t))
  }

  // ---------- parseWireValueString ----------

  datatype Parsed = Parsed(value: nat, plus: nat, algorithm: Algorithm, node: int)

  function TrimEnd(s: string): (r: string)
    ensures r <= s
  {
    if |s| > 1 && IsBlank(s[|s| - 1]) then TrimEnd(s[..|s| - 1]) else s
  }

  /** The position of the last opening bracket. */
  function LastOpen(s: string): (r: Option<nat>)
    ensures r.Some? ==> r.value < |s| && s[r.value] == '['
  {
    if s == [] then None
    else if s[|s| - 1] == '[' then Some(|s| - 1)
    else LastOpen(s[..|s| - 1])
  }

  /** Cuts off a node suffix; fails on a closing bracket without an opening one. */
  function CutNode(s: string): Option<(string, int)> {
    if s == [] || s[|s| - 1] != ']' then Some((s, 0))
    else
      var inner := s[..|s| - 1];
      match LastOpen(inner)
      case None => None
      case Some(k) => Some((inner[..k], ScanInt(inner[k + 1..])))
  }

  function CutAlgorithm(s: string): (string, Algorithm) {
    if s == [] then (s, Uniform)
    else match s[|s| - 1]
      case 'u' => (s[..|s| - 1], Uniform)
      case 'U' => (s[..|s| - 1], Uniform)
      case 'n' => (s[..|s| - 1], GaussNormal)
      case 'N' => (s[..|s| - 1], GaussNormal)
      case _ => (s, Uniform)
  }

  const KILO: nat := 1024
  const MEGA: nat := 1048576
  const GIGA: nat := 1073741824

  function MultiplierOf(c: char): nat {
    match c
    case 'k' => KILO
    case 'K' => KILO
    case 'm' => MEGA
    case 'M' => MEGA
    case 'g' => GIGA
    case 'G' => GIGA
    case _ => 1
  }

  /** The multiplier, still in the string, stops the scan of the numbers and scales the first one. */
  function Evaluate(s: string, algorithm: Algorithm, node: int): Option<Parsed> {
    var multiplier := if s == [] then 1 else MultiplierOf(s[|s| - 1]);
    match ScanValue(s)
    case None => None
    case Some((value, plus)) => Some(Parsed(value * multiplier, plus, algorithm, node))
  }

  function Parse(s: string): Option<Parsed> {
    match CutNode(TrimEnd(s))
    case None => None
    case Some((t, node)) => Evaluate(CutAlgorithm(t).0, CutAlgorithm(t).1, node)
  }

  /** The source parses from the end, cutting off what it has understood. */
  method ParseWireValueString(input: string) returns (r: Option<Parsed>)
    ensures r == Parse(input)
  {
    var s := TrimLoop(input);
    var cut := CutNodeLoop(s);
    match cut
    case None => return None;
    case Some((t, node)) =>
      var u, algorithm := CutAlgorithmStep(t);
      return Evaluate(u, algorithm, node);
  }

  method CutAlgorithmStep(t: string) returns (s: string, algorithm: Algorithm)
    ensures (s, algorithm) == CutAlgorithm(t)
  {
    s, algorithm := t, Uniform;
    if s != [] && (s[|s| - 1] == 'u' || s[|s| - 1] == 'U') {
      s := s[..|s| - 1];
    } else if s != [] && (s[|s| - 1] == 'n' || s[|s| - 1] == 'N') {
      algorithm := GaussNormal;
      s := s[..|s| - 1];
    }
  }

  method TrimLoop(input: string) returns (s: string)
    ensures s == TrimEnd(input)
  {
    s := input;
    while |s| > 1 && IsBlank(s[|s| - 1])
      invariant TrimEnd(s) == TrimEnd(input)
    {
      s := s[..|s| - 1];
    }
  }

  method CutNodeLoop(input: string) returns (r: Option<(string, int)>)
    ensures r == CutNode(input)
  {
    if input == [] || input[|input| - 1] != ']' {
      return Some((input, 0));
    }
    var s := input[..|input| - 1];
    var n := |s|;
    assert s[..n] == s;
    while n > 0 && s[n - 1] != '['
      invariant n <= |s| && LastOpen(s[..n]) == LastOpen(s)
    {
      assert s[..n][..n - 1] == s[..n - 1];
      n := n - 1;
    }
    if n == 0 {
      return None;
    }
    return Some((s[..n - 1], ScanInt(s[n..])));
  }

  // ---------- Printing and reading back ----------

  function Decimal(n: nat): string {
    if n < 10 then [Digit(n)] else Decimal(n / 10) + [Digit(n % 10)]
  }

  function Digit(d: nat): (c: char)
    requires d < 10
    ensures IsDigit(c) && c as int == '0' as int + d
  {
    ('0' as int + d) as char
  }

  function Power1024(n: nat): nat {
    if n == 0 then 1 else 1024 * Power1024(n - 1)
  }

  /** k is 1024, m is 1024 k, g is 1024 m. */
  function Exponent(c: char): nat {
    if c in "kK" then 1 else if c in "mM" then 2 else if c in "gG" then 3 else 0
  }

  lemma MultipliersArePowers(c: char)
    ensures MultiplierOf(c) == Power1024(Exponent(c))
  {
    assert Power1024(1) == 1024 && Power1024(2) == 1048576 && Power1024(3) == 1073741824;
  }

  /** A value as the manual describes it, behind its direction. */
  datatype Text = Text(value: nat, plus: Option<nat>, multiplier: Option<char>, algorithm: Option<char>, node: Option<int>) {
    predicate WellFormed() {
      && (multiplier.Some? ==> multiplier.value in "kKmMgG")
      && (algorithm.Some? ==> algorithm.value in "uUnN")
    }

    function Meaning(): Parsed {
      Parsed(value * Power1024(if multiplier.Some? then Exponent(multiplier.value) else 0),
             if plus.Some? then plus.value else 0,
             if algorithm == Some('n') || algorithm == Some('N') then GaussNormal else Uniform,
             if node.Some? then node.value else 0)
    }
  }

  function Letter(c: Option<char>): string {
    if c.Some? then [c.value] else []
  }

  function PrintPlus(plus: Option<nat>): string {
    if plus.Some? then "+" + Decimal(plus.value) else []
  }

  function PrintNumbers(t: Text): string {
    Decimal(t.value) + PrintPlus(t.plus) + Letter(t.multiplier)
  }

  function PrintCore(t: Text): string {
    PrintNumbers(t) + Letter(t.algorithm)
  }

  function PrintInt(n: int): string {
    if n < 0 then "-" + Decimal(0 - n) else Decimal(n)
  }

  function PrintNode(node: Option<int>): string {
    if node.Some? then "[" + PrintInt(node.value) + "]" else []
  }

  function Print(t: Text): string {
    PrintCore(t) + PrintNode(t.node)
  }

  /** Spaces, line feeds and tabs. */
  predicate Blanks(s: string) {
    forall i :: 0 <= i < |s| ==> s[i] in " \n\t"
  }

  lemma {:induction false} TrimBlanks(blanks: string, rest: string)
    requires Blanks(blanks) && (rest == [] || !IsBlank(rest[0]))
    ensures TrimStart(blanks + rest) == rest
  {
    if blanks == [] {
      assert blanks + rest == rest;
    } else {
      assert (blanks + rest)[1..] == blanks[1..] + rest;
      TrimBlanks(blanks[1..], rest);
    }
  }

  lemma {:induction false} DecimalReadsBack(n: nat)
    ensures Decimal(n) != [] && AllDigits(Decimal(n)) && NatOf(Decimal(n)) == n
  {
    if n < 10 {
      assert [Digit(n)][..0] == [];
    } else {
      DecimalReadsBack(n / 10);
      var ds := Decimal(n);
      assert ds[..|ds| - 1] == Decimal(n / 10);
    }
  }

  lemma {:induction false} DigitsStop(ds: string, rest: string)
    requires AllDigits(ds) && (rest == [] || !IsDigit(rest[0]))
    ensures Digits(ds + rest) == ds
  {
    if ds == [] {
      assert ds + rest == rest;
    } else {
      assert (ds + rest)[1..] == ds[1..] + rest;
      DigitsStop(ds[1..], rest);
    }
  }

  lemma ScanDecimal(n: nat, rest: string)
    requires rest == [] || !IsDigit(rest[0])
    ensures ScanNat(Decimal(n) + rest) == Some((n, rest))
  {
    var ds := Decimal(n);
    DecimalReadsBack(n);
    DigitsStop(ds, rest);
    assert TrimStart(ds + rest) == ds + rest;
    assert (ds + rest)[|ds|..] == rest;
  }

  lemma AllOfDigits(ds: string)
    requires AllDigits(ds)
    ensures Digits(ds) == ds
  {
    DigitsStop(ds, []);
    assert ds + [] == ds;
  }

  lemma ScanDigits(ds: string)
    requires AllDigits(ds) && ds != []
    ensures ScanInt(ds) == NatOf(ds) && ScanInt("-" + ds) == 0 - NatOf(ds)
  {
    AllOfDigits(ds);
    var t := "-" + ds;
    assert TrimStart(ds) == ds && TrimStart(t) == t && t[1..] == ds;
  }

  lemma ScanPrintedInt(n: int)
    ensures ScanInt(PrintInt(n)) == n && '[' !in PrintInt(n)
  {
    var m: nat := if n < 0 then 0 - n else n;
    DecimalReadsBack(m);
    ScanDigits(Decimal(m));
  }

  lemma ScanNumbers(t: Text)
    requires t.WellFormed()
    ensures ScanValue(PrintNumbers(t)) == Some((t.value, if t.plus.Some? then t.plus.value else 0))
  {
    var rest := PrintPlus(t.plus) + Letter(t.multiplier);
    assert PrintNumbers(t) == Decimal(t.value) + rest;
    ScanDecimal(t.value, rest);
    if t.plus.Some? {
      assert rest[1..] == Decimal(t.plus.value) + Letter(t.multiplier);
      ScanDecimal(t.plus.value, Letter(t.multiplier));
    }
  }

  lemma ScanBehindBlanks(blanks: string, s: string)
    requires Blanks(blanks) && s != [] && !IsBlank(s[0])
    ensures ScanValue(blanks + s) == ScanValue(s)
  {
    TrimBlanks(blanks, s);
    assert TrimStart(s) == s;
  }

  /** The last character of the numbers is a digit, or the multiplier. */
  lemma NumbersEnd(t: Text)
    requires t.WellFormed()
    ensures var s := PrintNumbers(t);
            s != [] && (if t.multiplier.Some? then s[|s| - 1] == t.multiplier.value else IsDigit(s[|s| - 1]))
  {
    DecimalReadsBack(t.value);
    var last := Decimal(if t.plus.Some? then t.plus.value else t.value);
    DecimalReadsBack(if t.plus.Some? then t.plus.value else t.value);
  }

  lemma CutPrintedAlgorithm(lead: string, t: Text)
    requires t.WellFormed()
    ensures CutAlgorithm(lead + PrintCore(t)) == (lead + PrintNumbers(t), t.Meaning().algorithm)
  {
    NumbersEnd(t);
    var s := lead + PrintNumbers(t);
    if t.algorithm.Some? {
      assert lead + PrintCore(t) == s + [t.algorithm.value];
      assert (s + [t.algorithm.value])[..|s|] == s;
    } else {
      assert lead + PrintCore(t) == s;
    }
  }

  lemma {:induction false} LastOpenBefore(a: string, ds: string)
    requires '[' !in ds
    ensures LastOpen(a + "[" + ds) == Some(|a|)
  {
    var s := a + "[" + ds;
    if ds != [] {
      var n := |ds| - 1;
      assert s[..|s| - 1] == a + "[" + ds[..n];
      LastOpenBefore(a, ds[..n]);
    }
  }

  lemma CutSuffixed(core: string, ds: string)
    requires '[' !in ds
    ensures CutNode(core + "[" + ds + "]") == Some((core, ScanInt(ds)))
  {
    var inner := core + "[" + ds;
    assert (inner + "]")[..|inner|] == inner;
    LastOpenBefore(core, ds);
    assert inner[..|core|] == core && inner[|core| + 1..] == ds;
  }

  lemma CutBrackets(core: string, n: int)
    ensures CutNode(core + "[" + PrintInt(n) + "]") == Some((core, n))
  {
    ScanPrintedInt(n);
    CutSuffixed(core, PrintInt(n));
  }

  lemma CoreEnd(t: Text)
    requires t.WellFormed()
    ensures var s := PrintCore(t); s != [] && s[|s| - 1] != ']' && !IsBlank(s[|s| - 1])
  {
    NumbersEnd(t);
  }

  lemma CutNothing(core: string)
    requires core != [] && core[|core| - 1] != ']'
    ensures CutNode(core) == Some((core, 0))
  {
  }

  /** Trailing blanks are spaces, line feeds and tabs, in any number. */
  lemma {:induction false} BlanksAreTrimmed(s: string, blanks: string)
    requires s != [] && !IsBlank(s[|s| - 1])
    requires Blanks(blanks)
    ensures TrimEnd(s + blanks) == s
  {
    if blanks == [] {
      assert s + blanks == s;
    } else {
      var n := |blanks| - 1;
      assert (s + blanks)[..|s + blanks| - 1] == s + blanks[..n];
      BlanksAreTrimmed(s, blanks[..n]);
    }
  }

  lemma PrintedIsTrimmed(lead: string, t: Text, blanks: string)
    requires t.WellFormed() && Blanks(blanks)
    ensures TrimEnd(lead + Print(t) + blanks) == lead + Print(t)
  {
    CoreEnd(t);
    var s := Print(t);
    assert t.node.Some? ==> s[|s| - 1] == ']';
    assert t.node.None? ==> s == PrintCore(t);
    BlanksAreTrimmed(lead + s, blanks);
  }

  lemma CutPrintedNode(lead: string, t: Text)
    requires t.WellFormed()
    ensures CutNode(lead + Print(t)) == Some((lead + PrintCore(t), if t.node.Some? then t.node.value else 0))
  {
    CoreEnd(t);
    CutSuffix(lead + PrintCore(t), t.node);
    Regroup(lead, PrintCore(t), PrintNode(t.node));
  }

  lemma Regroup(a: string, b: string, c: string)
    ensures a + (b + c) == (a + b) + c
  {
  }

  lemma CutSuffix(core: string, node: Option<int>)
    requires core != [] && core[|core| - 1] != ']'
    ensures CutNode(core + PrintNode(node)) == Some((core, if node.Some? then node.value else 0))
  {
    if node.Some? {
      CutBrackets(core, node.value);
      SuffixText(core, node.value);
    } else {
      CutNothing(core);
      assert core + PrintNode(node) == core;
    }
  }

  lemma SuffixText(core: string, n: int)
    ensures core + PrintNode(Some(n)) == core + "[" + PrintInt(n) + "]"
  {
  }

  lemma EvaluateScanned(s: string, factor: nat, value: nat, plus: nat, algorithm: Algorithm, node: int)
    requires s != [] && MultiplierOf(s[|s| - 1]) == factor && ScanValue(s) == Some((value, plus))
    ensures Evaluate(s, algorithm, node) == Some(Parsed(value * factor, plus, algorithm, node))
  {
  }

  lemma LastMultiplier(lead: string, t: Text)
    requires t.WellFormed()
    ensures var s := lead + PrintNumbers(t);
            s != [] && MultiplierOf(s[|s| - 1]) == Power1024(if t.multiplier.Some? then Exponent(t.multiplier.value) else 0)
  {
    NumbersEnd(t);
    MultipliersArePowers(if t.multiplier.Some? then t.multiplier.value else '0');
  }

  lemma EvaluatePrinted(lead: string, t: Text, node: int)
    requires t.WellFormed() && Blanks(lead)
    ensures Evaluate(lead + PrintNumbers(t), t.Meaning().algorithm, node) == Some(t.Meaning().(node := node))
  {
    ScanNumbers(t);
    NumbersStart(t);
    ScanBehindBlanks(lead, PrintNumbers(t));
    LastMultiplier(lead, t);
    EvaluateScanned(lead + PrintNumbers(t), Power1024(if t.multiplier.Some? then Exponent(t.multiplier.value) else 0),
                    t.value, if t.plus.Some? then t.plus.value else 0, t.Meaning().algorithm, node);
  }

  lemma NumbersStart(t: Text)
    ensures PrintNumbers(t) != [] && IsDigit(PrintNumbers(t)[0])
  {
    DecimalReadsBack(t.value);
  }

  /** Parsing recovers the fields from any printed form, with any blanks around it. */
  lemma ParsePrinted(lead: string, t: Text, blanks: string)
    requires t.WellFormed() && Blanks(lead) && Blanks(blanks)
    ensures Parse(lead + Print(t) + blanks) == Some(t.Meaning())
  {
    PrintedIsTrimmed(lead, t, blanks);
    CutPrintedNode(lead, t);
    CutPrintedAlgorithm(lead, t);
    EvaluatePrinted(lead, t, if t.node.Some? then t.node.value else 0);
  }

  /** The manual's `delay 100+10N[4]`: 100, more or less 10, normal, for node 4. */
  lemma ManualExample()
    ensures Parse("100+10N[4]") == Some(Parsed(100, 10, GaussNormal, 4))
  {
    var t := Text(100, Some(10), None, Some('N'), Some(4));
    assert Decimal(100) == "100" && Decimal(10) == "10" && Decimal(4) == "4";
    assert [] + Print(t) + [] == "100+10N[4]";
    ParsePrinted([], t, []);
  }

  /** 64k is 65536. */
  lemma KiloExample()
    ensures Parse("64k") == Some(Parsed(65536, 0, Uniform, 0))
  {
    var t := Text(64, None, Some('k'), None, None);
    assert Decimal(64) == "64" && Power1024(1) == 1024;
    assert [] + Print(t) + [] == "64k";
    ParsePrinted([], t, []);
  }

  // ---------- What does not parse ----------

  /** The string does not start with a number. */
  predicate NoNumber(s: string) {
    TrimStart(s) == [] || !IsDigit(TrimStart(s)[0])
  }

  lemma {:induction false} NoNumberInPrefix(s: string, n: nat)
    requires NoNumber(s) && n <= |s|
    ensures NoNumber(s[..n])
  {
    if n > 0 && IsBlank(s[0]) {
      assert s[..n][1..] == s[1..][..n - 1];
      NoNumberInPrefix(s[1..], n - 1);
    }
  }

  /** A value that does not start with a number does not parse, whatever follows. */
  lemma NoNumberFails(s: string)
    requires NoNumber(s)
    ensures Parse(s) == None
  {
    var t := TrimEnd(s);
    assert t == s[..|t|];
    NoNumberInPrefix(s, |t|);
    match CutNode(t)
    case None =>
    case Some((u, node)) =>
      assert u == t[..|u|];
      NoNumberInPrefix(t, |u|);
      var w := CutAlgorithm(u).0;
      assert w == u[..|w|];
      NoNumberInPrefix(u, |w|);
  }

  lemma {:induction false} NoOpenBracket(s: string)
    requires '[' !in s
    ensures LastOpen(s) == None
  {
    if s != [] {
      NoOpenBracket(s[..|s| - 1]);
    }
  }

  /** Nor does one that ends in a closing bracket without an opening one. */
  lemma UnopenedBracketFails(s: string)
    requires '[' !in s
    ensures Parse(s + "]") == None
  {
    var t := s + "]";
    assert TrimEnd(t) == t && t[..|t| - 1] == s;
    NoOpenBracket(s);
  }

  // ---------- setWireValue ----------

  /** A word starts after blanks and ends before a space. */
  function Word(s: string): (r: string)
    ensures r <= s
  {
    if s == [] || s[0] == ' ' then [] else [s[0]] + Word(s[1..])
  }

  function Words(s: string): seq<string>
    decreases |s|
  {
    var t := TrimStart(s);
    if t == [] then [] else [Word(t)] + Words(t[|Word(t)|..])
  }

  datatype Target = Both | Only(d: Direction)

  /** An LR or RL prefix, and the value behind it. */
  function CutDirection(w: string): (string, Target) {
    if |w| >= 2 && (w[0] == 'L' || w[0] == 'l') && (w[1] == 'R' || w[1] == 'r') then (w[2..], Only(LeftToRight))
    else if |w| >= 2 && (w[0] == 'R' || w[0] == 'r') && (w[1] == 'L' || w[1] == 'l') then (w[2..], Only(RightToLeft))
    else (w, Both)
  }

  /** What a word asks for: nothing if it does not parse. */
  datatype Effect = Nothing | Write(node: int, target: Target, value: WireValue)

  function EffectOf(w: string, bidirectional: bool): Effect {
    var (v, target) := CutDirection(w);
    match Parse(v)
    case None => Nothing
    case Some(p) => Write(p.node, if bidirectional then Both else target, WireValue(p.value as real, p.plus as real, p.algorithm))
  }

  predicate Concerns(target: Target, d: Direction) {
    target == Both || target == Only(d)
  }

  /** One cell update. */
  function Updated(nodes: seq<MarkovNode>, tag: Tag, e: Effect): seq<MarkovNode>
    requires e.Write? && 0 <= e.node < |nodes|
  {
    var cell := nodes[e.node][tag];
    var lr := if Concerns(e.target, LeftToRight) then cell.Set(LeftToRight, e.value) else cell;
    var both := if Concerns(e.target, RightToLeft) then lr.Set(RightToLeft, e.value) else lr;
    nodes[e.node := nodes[e.node][tag := both]]
  }

  /** A word changes the cells of its node, tag and direction, and no others. */
  lemma UpdatedCells(nodes: seq<MarkovNode>, tag: Tag, e: Effect, i: nat, other: Tag, d: Direction)
    requires e.Write? && 0 <= e.node < |nodes| && i < |nodes|
    ensures Updated(nodes, tag, e)[i][other].Get(d)
         == if i == e.node && other == tag && Concerns(e.target, d) then e.value else nodes[i][other].Get(d)
  {
  }

  /** All words in turn; a node out of range ends the call. */
  function Applied(nodes: seq<MarkovNode>, tag: Tag, words: seq<string>, bidirectional: bool): (r: seq<MarkovNode>)
    ensures |r| == |nodes|
    decreases |words|
  {
    if words == [] then nodes
    else
      var e := EffectOf(words[0], bidirectional);
      if e == Nothing then Applied(nodes, tag, words[1..], bidirectional)
      else if !(0 <= e.node < |nodes|) then nodes
      else Applied(Updated(nodes, tag, e), tag, words[1..], bidirectional)
  }

  /** The value the last word that reaches a cell writes to it. */
  function LastWrite(count: nat, words: seq<string>, bidirectional: bool, i: nat, d: Direction): Option<WireValue>
    decreases |words|
  {
    if words == [] then None
    else
      var e := EffectOf(words[0], bidirectional);
      if e == Nothing then LastWrite(count, words[1..], bidirectional, i, d)
      else if !(0 <= e.node < count) then None
      else
        var later := LastWrite(count, words[1..], bidirectional, i, d);
        if later.Some? then later
        else if e.node == i && Concerns(e.target, d) then Some(e.value)
        else None
  }

  /** Every cell holds what the last word that concerns it wrote; all other cells are as before. */
  lemma {:induction false} CellsAfter(nodes: seq<MarkovNode>, tag: Tag, words: seq<string>, bidirectional: bool,
                                      i: nat, other: Tag, d: Direction)
    requires i < |nodes|
    ensures var r := Applied(nodes, tag, words, bidirectional);
            var w := LastWrite(|nodes|, words, bidirectional, i, d);
            r[i][other].Get(d) == if other == tag && w.Some? then w.value else nodes[i][other].Get(d)
    decreases |words|
  {
    if words != [] {
      var e := EffectOf(words[0], bidirectional);
      if e == Nothing {
        CellsAfter(nodes, tag, words[1..], bidirectional, i, other, d);
      } else if 0 <= e.node < |nodes| {
        UpdatedCells(nodes, tag, e, i, other, d);
        CellsAfter(Updated(nodes, tag, e), tag, words[1..], bidirectional, i, other, d);
      }
    }
  }

  lemma {:induction false} WordOfJoined(w: string, rest: string)
    requires ' ' !in w && (rest == [] || rest[0] == ' ')
    ensures Word(w + rest) == w
  {
    if w == [] {
      assert w + rest == rest;
    } else {
      assert (w + rest)[1..] == w[1..] + rest;
      WordOfJoined(w[1..], rest);
    }
  }

  /** Each word behind its separator, and `tail` behind the last one. */
  function Joined(words: seq<string>, separators: seq<string>, tail: string): string
    requires |separators| == |words|
  {
    if words == [] then tail else separators[0] + words[0] + Joined(words[1..], separators[1..], tail)
  }

  /** A word needs a space behind it, and may have any blanks besides. */
  ghost predicate Separates(separators: seq<string>) {
    forall i :: 0 <= i < |separators| ==> Blanks(separators[i]) && (i > 0 ==> separators[i] != [] && separators[i][0] == ' ')
  }

  lemma FirstWord(blanks: string, w: string, rest: string)
    requires Blanks(blanks) && w != [] && !IsBlank(w[0]) && ' ' !in w && (rest == [] || rest[0] == ' ')
    ensures Words(blanks + (w + rest)) == [w] + Words(rest)
  {
    var s := w + rest;
    TrimBlanks(blanks, s);
    WordOfJoined(w, rest);
    assert s[|w|..] == rest;
  }

  /** What is joined starts with its first separator, or the tail. */
  lemma JoinedStart(words: seq<string>, separators: seq<string>, tail: string)
    requires |separators| == |words|
    requires if words == [] then tail == [] || tail[0] == ' ' else separators[0] != [] && separators[0][0] == ' '
    ensures Joined(words, separators, tail) == [] || Joined(words, separators, tail)[0] == ' '
  {
  }

  /** Words between blanks are read back as the same words: the first behind any blanks, each other behind a space at least. */
  lemma {:induction false} WordsOfJoined(words: seq<string>, separators: seq<string>, tail: string)
    requires |separators| == |words| && Separates(separators)
    requires Blanks(tail) && (tail == [] || tail[0] == ' ')
    requires forall i :: 0 <= i < |words| ==> words[i] != [] && !IsBlank(words[i][0]) && ' ' !in words[i]
    ensures Words(Joined(words, separators, tail)) == words
    decreases |words|
  {
    if words == [] {
      TrimBlanks(tail, []);
      assert tail + [] == tail;
    } else {
      var w, rest := words[0], Joined(words[1..], separators[1..], tail);
      WordsOfJoined(words[1..], separators[1..], tail);
      JoinedStart(words[1..], separators[1..], tail);
      FirstWord(separators[0], w, rest);
      assert separators[0] + w + rest == separators[0] + (w + rest);
      assert [w] + words[1..] == words;
    }
  }

  lemma CutPrefix(v: string, prefix: string)
    requires v != [] && IsDigit(v[0]) && prefix in {"", "LR", "Lr", "lR", "lr", "RL", "Rl", "rL", "rl"}
    ensures CutDirection(prefix + v) == (v, PrefixTarget(prefix))
  {
    if prefix == "" {
      assert prefix + v == v;
    } else {
      assert (prefix + v)[2..] == v;
    }
  }

  function PrefixTarget(prefix: string): Target {
    if prefix == "" then Both else if prefix[0] == 'L' || prefix[0] == 'l' then Only(LeftToRight) else Only(RightToLeft)
  }

  lemma PrintStartsWithDigit(t: Text)
    ensures Print(t) != [] && IsDigit(Print(t)[0])
  {
    DecimalReadsBack(t.value);
  }

  /** A direction in front of a printed value is read back, and the value behind it. */
  lemma EffectOfPrinted(t: Text, prefix: string, blanks: string, bidirectional: bool)
    requires t.WellFormed() && prefix in {"", "LR", "Lr", "lR", "lr", "RL", "Rl", "rL", "rl"}
    requires Blanks(blanks)
    ensures EffectOf(prefix + (Print(t) + blanks), bidirectional)
         == Write(t.Meaning().node, if bidirectional then Both else PrefixTarget(prefix),
                  WireValue(t.Meaning().value as real, t.Meaning().plus as real, t.Meaning().algorithm))
  {
    ParsePrinted([], t, blanks);
    assert [] + Print(t) + blanks == Print(t) + blanks;
    PrintStartsWithDigit(t);
    CutPrefix(Print(t) + blanks, prefix);
  }

  method SetNodeValue(chain: MarkovChain, node: nat, tag: Tag, d: Direction, value: WireValue)
    requires node < |chain.nodes|
    modifies chain`nodes
    ensures chain.nodes == old(chain.nodes)[node := old(chain.nodes)[node][tag := old(chain.nodes)[node][tag].Set(d, value)]]
  {
    chain.nodes := chain.nodes[node := chain.nodes[node][tag := chain.nodes[node][tag].Set(d, value)]];
  }

  /** Writes the cells one word asks for; `false` when its node is out of range, which ends the call. */
  method ApplyWord(chain: MarkovChain, tag: Tag, parsed: Parsed, target: Target) returns (inRange: bool)
    modifies chain`nodes
    ensures inRange <==> 0 <= parsed.node < |old(chain.nodes)|
    ensures var e := Write(parsed.node, target, WireValue(parsed.value as real, parsed.plus as real, parsed.algorithm));
            chain.nodes == if inRange then Updated(old(chain.nodes), tag, e) else old(chain.nodes)
  {
    if parsed.node < 0 || parsed.node >= |chain.nodes| {
      return false;
    }
    var value := WireValue(parsed.value as real, parsed.plus as real, parsed.algorithm);
    ghost var nodes, i: nat := chain.nodes, parsed.node;
    if Concerns(target, LeftToRight) {
      SetNodeValue(chain, parsed.node, tag, LeftToRight, value);
    }
    if Concerns(target, RightToLeft) {
      SetNodeValue(chain, parsed.node, tag, RightToLeft, value);
    }
    ghost var cell := chain.nodes[i][tag];
    assert chain.nodes[i] == nodes[i][tag := cell];
    assert chain.nodes == nodes[i := nodes[i][tag := cell]];
    return true;
  }

  /** `setWireValue` on the nodes of a chain. */
  method SetWireValue(chain: MarkovChain, tag: Tag, input: string, bidirectional: bool)
    modifies chain`nodes
    ensures chain.nodes == Applied(old(chain.nodes), tag, Words(input), bidirectional)
  {
    ghost var result := Applied(chain.nodes, tag, Words(input), bidirectional);
    var s := input;
    while s != []
      invariant Applied(chain.nodes, tag, Words(s), bidirectional) == result
      decreases |s|
    {
      var t := TrimLeft(s);
      if t == [] {
        break;
      }
      var word := TakeWord(t);
      WordsNext(s, t, word);
      var value, target := CutDirection(word).0, CutDirection(word).1;
      if bidirectional {
        target := Both;
      }
      var parsed := ParseWireValueString(value);
      if parsed.Some? {
        var inRange := ApplyWord(chain, tag, parsed.value, target);
        if !inRange {
          return;
        }
      }
      s := t[|word|..];
    }
  }

  lemma WordsNext(s: string, t: string, word: string)
    requires t == TrimStart(s) && t != [] && word == Word(t)
    ensures word != [] && Words(s) == [word] + Words(t[|word|..]) && |t[|word|..]| < |s|
    ensures Words(s)[0] == word && Words(s)[1..] == Words(t[|word|..])
  {
  }

  method TrimLeft(s: string) returns (t: string)
    ensures t == TrimStart(s)
  {
    t := s;
    while t != [] && IsBlank(t[0])
      invariant TrimStart(t) == TrimStart(s)
    {
      t := t[1..];
    }
  }

  method TakeWord(t: string) returns (w: string)
    ensures w == Word(t)
  {
    var n := 0;
    while n < |t| && t[n] != ' '
      invariant n <= |t| && forall i :: 0 <= i < n ==> t[i] != ' '
    {
      n := n + 1;
    }
    w := t[..n];
    assert w + t[n..] == t;
    WordOfJoined(w, t[n..]);
  }
}
