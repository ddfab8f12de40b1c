/**
  Skeletons and the reserved-name test of src/common/reserved-usernames.ts, for any dictionary, and
  how skeletons behave when names are joined.
 */
module ReservedNames {
  import opened Common
  import opened NameSegmentation

  // ----- the folding pipeline

  predicate Separator(c: char) {
    c == '.' || c == '_' || c == '-'
  }

  /** Lower-cased, separators removed. */
  function Compact(name: string): string {
    if name == "" then ""
    else if Separator(name[0]) then Compact(name[1..])
    else [LowerChar(name[0])] + Compact(name[1..])
  }

  /** Replaces every `ab`, left to right and without overlap, by m. */
  function FoldPair(s: string, a: char, b: char, m: char): string {
    if |s| < 2 then s
    else if s[0] == a && s[1] == b then [m] + FoldPair(s[2..], a, b, m)
    else [s[0]] + FoldPair(s[1..], a, b, m)
  }

  function FoldPairs(s: string): string {
    FoldPair(FoldPair(s, 'r', 'n', 'm'), 'v', 'v', 'w')
  }

  /** Runs of one character become one character. */
  function Collapse(s: string): string {
    if |s| < 2 then s
    else if s[0] == s[1] then Collapse(s[1..])
    else [s[0]] + Collapse(s[1..])
  }

  function Lookalike(c: char): char {
    match c
    case '0' => 'o'
    case '1' => 'i'
    case 'l' => 'i'
    case '2' => 'z'
    case '3' => 'e'
    case '4' => 'a'
    case '5' => 's'
    case '6' => 'g'
    case '7' => 't'
    case '8' => 'b'
    case '9' => 'g'
    case 'q' => 'g'
    case _ => c
  }

  function FoldSingles(s: string): (r: string)
    ensures |r| == |s| && forall i :: 0 <= i < |s| ==> r[i] == Lookalike(s[i])
  {
    if s == "" then "" else [Lookalike(s[0])] + FoldSingles(s[1..])
  }

  function Skeleton(name: string): string {
    FoldSingles(Collapse(FoldPairs(Compact(name))))
  }

  // ----- the candidates

  function DropLeadingDigits(s: string): string {
    if s != "" && Digit(s[0]) then DropLeadingDigits(s[1..]) else s
  }

  function DropTrailingDigits(s: string): string {
    if s != "" && Digit(s[|s| - 1]) then DropTrailingDigits(s[..|s| - 1]) else s
  }

  /** A compact name as it is, and without its trailing digits, its leading digits, or both. */
  function Readings(c: string): set<string> {
    {c, DropTrailingDigits(c), DropLeadingDigits(c), DropTrailingDigits(DropLeadingDigits(c))}
  }

  function Variants(name: string): set<string> {
    Readings(Compact(name)) - {""}
  }

  ghost predicate Reserved(name: string, P: set<string>, F: set<string>) {
    exists v :: v in Variants(name) && Splits(Skeleton(v), P, F)
  }

  method IsReservedUsername(name: string, P: set<string>, F: set<string>) returns (yes: bool)
    ensures yes <==> Reserved(name, P, F)
  {
    var todo := Variants(name);
    yes := false;
    while todo != {} && !yes
      invariant todo <= Variants(name)
      invariant yes ==> Reserved(name, P, F)
      invariant !yes ==> forall v :: v in Variants(name) && v !in todo ==> !Splits(Skeleton(v), P, F)
      decreases |todo|
    {
      var v :| v in todo;
      todo := todo - {v};
      yes := SegmentsIntoProtected(Skeleton(v), P, F);
    }
  }

  // ----- joining two names

  lemma {:induction false} CompactJoins(u: string, v: string)
    ensures Compact(u + v) == Compact(u) + Compact(v)
  {
    if u == "" {
      assert u + v == v;
    } else {
      assert (u + v)[1..] == u[1..] + v;
      CompactJoins(u[1..], v);
    }
  }

  predicate EndsIn(s: string, c: char) {
    s != "" && s[|s| - 1] == c
  }

  predicate StartsWith(s: string, c: char) {
    s != "" && s[0] == c
  }

  /** The folded u ends in an `a` still waiting for its `b`, and v starts with it. */
  predicate Bridges(u: string, v: string, a: char, b: char, m: char) {
    EndsIn(FoldPair(u, a, b, m), a) && StartsWith(v, b)
  }

  /** The folded halves f and g joined, with a bridging pair folded to m; rest is g without its first character. */
  function Across(f: string, g: string, rest: string, bridging: bool, m: char): string
    requires bridging ==> f != ""
  {
    if bridging then f[..|f| - 1] + [m] + rest else f + g
  }

  lemma AcrossCons(c: char, f: string, g: string, rest: string, bridging: bool, m: char)
    requires bridging ==> f != ""
    ensures Across([c] + f, g, rest, bridging, m) == [c] + Across(f, g, rest, bridging, m)
  {
  }

  lemma FoldConsBridges(c: char, f: string, v: string, a: char, b: char, m: char)
    requires f == "" ==> c != a
    ensures EndsIn([c] + f, a) && StartsWith(v, b) <==> EndsIn(f, a) && StartsWith(v, b)
  {
  }

  lemma {:induction false} FoldNonEmpty(s: string, a: char, b: char, m: char)
    requires s != ""
    ensures FoldPair(s, a, b, m) != ""
  {
  }

  /** A bridging pair is folded across the join, and then only. */
  lemma {:induction false} FoldAcross(u: string, v: string, a: char, b: char, m: char)
    requires m != a
    ensures var rest := if v == "" then "" else FoldPair(v[1..], a, b, m);
            FoldPair(u + v, a, b, m)
            == Across(FoldPair(u, a, b, m), FoldPair(v, a, b, m), rest, Bridges(u, v, a, b, m), m)
    decreases |u|
  {
    var g, rest := FoldPair(v, a, b, m), if v == "" then "" else FoldPair(v[1..], a, b, m);
    if u == "" {
      assert u + v == v;
    } else if |u| == 1 {
      assert (u + v)[1..] == v;
      if v != "" { assert (u + v)[2..] == v[1..]; }
    } else {
      var (c, k) := FoldHead(u, a, b, m);
      FoldHeadJoins(u, v, a, b, m);
      FoldAcross(u[k..], v, a, b, m);
      FoldConsBridges(c, FoldPair(u[k..], a, b, m), v, a, b, m);
      AcrossCons(c, FoldPair(u[k..], a, b, m), g, rest, Bridges(u[k..], v, a, b, m), m);
    }
  }

  /** The first character of a fold of two letters or more, and how many letters it took. */
  function FoldHead(s: string, a: char, b: char, m: char): (char, nat)
    requires |s| >= 2
  {
    if s[0] == a && s[1] == b then (m, 2) else (s[0], 1)
  }

  lemma FoldHeadJoins(u: string, v: string, a: char, b: char, m: char)
    requires |u| >= 2 && m != a
    ensures var (c, k) := FoldHead(u, a, b, m);
            && FoldPair(u, a, b, m) == [c] + FoldPair(u[k..], a, b, m)
            && FoldPair(u + v, a, b, m) == [c] + FoldPair(u[k..] + v, a, b, m)
            && (FoldPair(u[k..], a, b, m) == "" ==> c != a)
  {
    var (c, k) := FoldHead(u, a, b, m);
    assert (u + v)[0] == u[0] && (u + v)[1] == u[1];
    assert (u + v)[k..] == u[k..] + v;
    if k == 1 { FoldNonEmpty(u[1..], a, b, m); }
  }

  /** Pair folding commutes with joining exactly when no pair bridges the join. */
  lemma FoldPairJoinsIff(u: string, v: string, a: char, b: char, m: char)
    requires m != a
    ensures FoldPair(u + v, a, b, m) == FoldPair(u, a, b, m) + FoldPair(v, a, b, m) <==> !Bridges(u, v, a, b, m)
  {
    FoldAcross(u, v, a, b, m);
    var f, g := FoldPair(u, a, b, m), FoldPair(v, a, b, m);
    if Bridges(u, v, a, b, m) {
      assert FoldPair(u + v, a, b, m)[|f| - 1] == m;
      assert (f + g)[|f| - 1] == a;
    }
  }

  /** Neither `rn` nor `vv` forms across the join of two compact names. */
  predicate JoinsCleanly(u: string, v: string) {
    && !(EndsIn(u, 'r') && StartsWith(v, 'n'))
    && !(EndsIn(FoldPairs(u), 'v') && StartsWith(v, 'v'))
  }

  lemma {:induction false} FoldPairEnds(s: string, a: char, b: char, m: char, c: char)
    requires c != m && c != b
    ensures EndsIn(FoldPair(s, a, b, m), c) <==> EndsIn(s, c)
    decreases |s|
  {
    if |s| >= 2 {
      if s[0] == a && s[1] == b {
        FoldPairEnds(s[2..], a, b, m, c);
      } else {
        FoldPairEnds(s[1..], a, b, m, c);
      }
    }
  }

  lemma FoldPairStarts(s: string, a: char, b: char, m: char, c: char)
    requires c != m && c != a
    ensures StartsWith(FoldPair(s, a, b, m), c) <==> StartsWith(s, c)
  {
  }

  lemma FoldPairsJoin(u: string, v: string)
    requires JoinsCleanly(u, v)
    ensures FoldPairs(u + v) == FoldPairs(u) + FoldPairs(v)
  {
    FoldPairEnds(u, 'r', 'n', 'm', 'r');
    FoldAcross(u, v, 'r', 'n', 'm');
    FoldPairStarts(v, 'r', 'n', 'm', 'v');
    FoldAcross(FoldPair(u, 'r', 'n', 'm'), FoldPair(v, 'r', 'n', 'm'), 'v', 'v', 'w');
  }

  /** The joined fold differs from the two folds exactly when a pair bridges the join. */
  lemma FoldPairsJoinIff(u: string, v: string)
    ensures FoldPairs(u + v) == FoldPairs(u) + FoldPairs(v) <==> JoinsCleanly(u, v)
  {
    var f, g := FoldPair(u, 'r', 'n', 'm'), FoldPair(v, 'r', 'n', 'm');
    FoldPairEnds(u, 'r', 'n', 'm', 'r');
    FoldAcross(u, v, 'r', 'n', 'm');
    if EndsIn(u, 'r') && StartsWith(v, 'n') {
      var init, rest := f[..|f| - 1], FoldPair(v[1..], 'r', 'n', 'm');
      assert f == init + "r" + "" && g == "n" + rest;
      SealedFold(init, "m", rest);
      SealedFold(init, "r", "");
      assert FoldPairs(u) == FoldPair(init, 'v', 'v', 'w') + "r";
      assert FoldPairs(u + v)[|FoldPair(init, 'v', 'v', 'w')|] == 'm';
      assert (FoldPairs(u) + FoldPairs(v))[|FoldPair(init, 'v', 'v', 'w')|] == 'r';
    } else {
      FoldPairStarts(v, 'r', 'n', 'm', 'v');
      FoldPairJoinsIff(f, g, 'v', 'v', 'w');
    }
  }

  /** A letter other than v seals both sides against `vv`. */
  lemma SealedFold(x: string, c: string, y: string)
    requires |c| == 1 && c != "v"
    ensures FoldPair(x + c + y, 'v', 'v', 'w') == FoldPair(x, 'v', 'v', 'w') + c + FoldPair(y, 'v', 'v', 'w')
  {
    FoldAcross(x + c, y, 'v', 'v', 'w');
    FoldAcross(x, c, 'v', 'v', 'w');
  }

  lemma {:induction false} CollapseEnds(s: string)
    ensures (Collapse(s) == "" <==> s == "")
    ensures s != "" ==> Collapse(s)[0] == s[0] && Collapse(s)[|Collapse(s)| - 1] == s[|s| - 1]
  {
    if |s| >= 2 {
      CollapseEnds(s[1..]);
    }
  }

  predicate Meet(u: string, v: string) {
    u != "" && v != "" && u[|u| - 1] == v[0]
  }

  /** Collapsing a join merges at most the two characters that meet. */
  lemma {:induction false} CollapseJoins(u: string, v: string)
    ensures Collapse(v) == "" <==> v == ""
    ensures Collapse(u + v) == Collapse(u) + if Meet(u, v) then Collapse(v)[1..] else Collapse(v)
    decreases |u|
  {
    CollapseEnds(v);
    if u == "" {
      assert u + v == v;
    } else if |u| == 1 {
      assert (u + v)[1..] == v;
      if v == "" { assert u + v == u; }
      if Meet(u, v) { assert Collapse(u + v) == Collapse(v) && Collapse(v) == u + Collapse(v)[1..]; }
    } else {
      assert (u + v)[1..] == u[1..] + v;
      CollapseJoins(u[1..], v);
      assert Meet(u, v) == Meet(u[1..], v);
    }
  }

  lemma FoldSinglesJoins(u: string, v: string)
    ensures FoldSingles(u + v) == FoldSingles(u) + FoldSingles(v)
  {
  }

  /** The skeleton of a cleanly joined name: both skeletons, with at most one shared character at the join. */
  lemma SkeletonJoins(u: string, v: string)
    requires JoinsCleanly(Compact(u), Compact(v))
    ensures var x, y, j := Skeleton(u), Skeleton(v), Skeleton(u + v);
            j == x + y || (Meet(x, y) && j == x + y[1..])
  {
    CompactJoins(u, v);
    FoldPairsJoin(Compact(u), Compact(v));
    var a, b := FoldPairs(Compact(u)), FoldPairs(Compact(v));
    CollapseJoins(a, b);
    CollapseEnds(a);
    CollapseEnds(b);
    if Meet(a, b) {
      FoldSinglesJoins(Collapse(a), Collapse(b)[1..]);
      assert FoldSingles(Collapse(b)[1..]) == FoldSingles(Collapse(b))[1..];
    } else {
      FoldSinglesJoins(Collapse(a), Collapse(b));
    }
  }

  // ----- reserved compounds

  lemma {:induction false} CompactTwice(s: string)
    ensures Compact(Compact(s)) == Compact(s)
  {
    if s != "" {
      CompactTwice(s[1..]);
      if !Separator(s[0]) {
        var c := LowerChar(s[0]);
        assert Compact([c] + Compact(s[1..])) == [LowerChar(c)] + Compact(Compact(s[1..])) by {
          assert ([c] + Compact(s[1..]))[1..] == Compact(s[1..]);
        }
      }
    }
  }

  /** A name whose own skeleton splits is reserved. */
  lemma SkeletonDecides(name: string, P: set<string>, F: set<string>)
    requires Skeleton(name) != "" && Splits(Skeleton(name), P, F)
    ensures Reserved(name, P, F)
  {
    CompactTwice(name);
    assert Compact(name) in Variants(name);
  }

  /** A chain over a prefix is a chain over the whole string. */
  lemma ChainInPrefix(x: string, y: string, words: set<string>, pieces: seq<Piece>)
    requires Chain(x, words, pieces)
    ensures Chain(x + y, words, pieces)
  {
    forall k | 0 <= k < |pieces|
      ensures Hop(x + y, words, EndOf(pieces[..k]), pieces[k])
    {
      var p := pieces[k];
      assert Hop(x, words, EndOf(pieces[..k]), p);
      assert (x + y)[p.from..p.end] == x[p.from..p.end];
    }
  }

  /** A split followed by a protected word is a split, also when the word shares its first character. */
  lemma AppendWord(x: string, y: string, j: string, P: set<string>, F: set<string>)
    requires Reaches(x, P + F, |x|) && y in P && |y| >= 2
    requires j == x + y || (Meet(x, y) && j == x + y[1..])
    ensures Splits(j, P, F)
  {
    var p := if j == x + y then Piece(|x|, |j|) else Piece(|x| - 1, |j|);
    assert x + j[|x|..] == j && j[p.from..p.end] == y;
    AppendPiece(x, j[|x|..], p, P, F);
  }

  lemma AppendPiece(x: string, tail: string, p: Piece, P: set<string>, F: set<string>)
    requires Reaches(x, P + F, |x|) && Hop(x + tail, P + F, |x|, p) && p.end == |x + tail|
    requires (x + tail)[p.from..p.end] in P
    ensures Splits(x + tail, P, F)
  {
    var pieces: seq<Piece> :| Chain(x, P + F, pieces) && EndOf(pieces) == |x|;
    ChainInPrefix(x, tail, P + F, pieces);
    ExtendChain(x + tail, P + F, pieces, p);
    ExtendHasWord(x + tail, P, pieces, p);
  }

  /**
    A name that splits into reserved words and fillers, followed by a lookalike of a reserved word
    of at least two letters, is reserved, even when collapsing repeats merges the join, unless a
    multi-letter lookalike forms across it.
   */
  lemma CompoundIsReserved(u: string, v: string, P: set<string>, F: set<string>)
    requires Reaches(Skeleton(u), P + F, |Skeleton(u)|) && Skeleton(v) in P && |Skeleton(v)| >= 2
    requires JoinsCleanly(Compact(u), Compact(v))
    ensures Reserved(u + v, P, F)
  {
    SkeletonJoins(u, v);
    AppendWord(Skeleton(u), Skeleton(v), Skeleton(u + v), P, F);
    SkeletonDecides(u + v, P, F);
  }

  /** Any spelling that folds to a reserved word is reserved. */
  lemma LookalikeIsReserved(name: string, P: set<string>, F: set<string>)
    requires Skeleton(name) in P && Skeleton(name) != ""
    ensures Reserved(name, P, F)
  {
    WordSplits(Skeleton(name), P, F);
    SkeletonDecides(name, P, F);
  }

  lemma WordSplits(s: string, P: set<string>, F: set<string>)
    requires s in P && s != ""
    ensures Splits(s, P, F)
  {
    var p := Piece(0, |s|);
    assert s[0..|s|] == s;
    ExtendChain(s, P + F, [], p);
    ExtendHasWord(s, P, [], p);
  }

  // ----- decoration with digits

  predicate AllDigits(s: string) {
    forall i :: 0 <= i < |s| ==> Digit(s[i])
  }

  lemma {:induction false} LeadingDigitsDrop(d: string, w: string)
    requires AllDigits(d) && (w == "" || !Digit(w[0]))
    ensures DropLeadingDigits(d + w) == w
  {
    if d == "" {
      assert d + w == w;
    } else {
      assert (d + w)[1..] == d[1..] + w;
      LeadingDigitsDrop(d[1..], w);
    }
  }

  lemma {:induction false} TrailingDigitsDrop(w: string, d: string)
    requires AllDigits(d) && (w == "" || !Digit(w[|w| - 1]))
    ensures DropTrailingDigits(w + d) == w
  {
    if d == "" {
      assert w + d == w;
    } else {
      assert (w + d)[..|w + d| - 1] == w + d[..|d| - 1];
      TrailingDigitsDrop(w, d[..|d| - 1]);
    }
  }

  lemma {:induction false} CompactDigits(d: string)
    requires AllDigits(d)
    ensures Compact(d) == d
  {
    if d != "" {
      CompactDigits(d[1..]);
    }
  }

  lemma {:induction false} DropLeadingEnds(s: string)
    ensures var r := DropLeadingDigits(s); |r| <= |s| && s[|s| - |r|..] == r && (r != "" ==> !Digit(r[0]))
  {
    if s != "" && Digit(s[0]) {
      DropLeadingEnds(s[1..]);
    }
  }

  lemma {:induction false} DropTrailingEnds(s: string)
    ensures var r := DropTrailingDigits(s); r <= s && (r != "" ==> !Digit(r[|r| - 1]))
  {
    if s != "" && Digit(s[|s| - 1]) {
      DropTrailingEnds(s[..|s| - 1]);
    }
  }

  /** A side may be decorated with digits when it is not a digit itself. */
  predicate Decorable(before: string, core: string, after: string) {
    core != "" && (before == "" || !Digit(core[0])) && (after == "" || !Digit(core[|core| - 1]))
  }

  lemma DigitsDrop(before: string, core: string, after: string)
    requires AllDigits(before) && AllDigits(after) && Decorable(before, core, after)
    ensures var c := before + core + after;
            core in Readings(c)
  {
    assert before + core + after == before + (core + after);
    if before == "" && after == "" {
      assert before + core + after == core;
    } else if before == "" {
      assert before + core + after == core + after;
      TrailingDigitsDrop(core, after);
    } else {
      LeadingDigitsDrop(before, core + after);
      if after == "" { assert core + after == core; } else { TrailingDigitsDrop(core, after); }
    }
  }

  lemma DroppedIsDecorable(before: string, core: string, after: string)
    requires AllDigits(before) && AllDigits(after) && core != ""
    requires var c := before + core + after;
             core in Readings(c)
    ensures Decorable(before, core, after)
  {
    var c := before + core + after;
    if core == DropTrailingDigits(c) {
      TrailingDroppedIsDecorable(before, core, after);
    } else if core == DropLeadingDigits(c) {
      LeadingDroppedIsDecorable(before, core, after);
    } else if core == DropTrailingDigits(DropLeadingDigits(c)) {
      DropLeadingEnds(c);
      DropTrailingEnds(DropLeadingDigits(c));
    }
  }

  lemma TrailingDroppedIsDecorable(before: string, core: string, after: string)
    requires AllDigits(after) && core != "" && core == DropTrailingDigits(before + core + after)
    ensures Decorable(before, core, after)
  {
    DropTrailingEnds(before + core + after);
    TrailingDigitsDrop(before + core, after);
  }

  lemma LeadingDroppedIsDecorable(before: string, core: string, after: string)
    requires AllDigits(before) && core != "" && core == DropLeadingDigits(before + core + after)
    ensures Decorable(before, core, after)
  {
    DropLeadingEnds(before + core + after);
    assert before + core + after == before + (core + after);
    LeadingDigitsDrop(before, core + after);
  }

  lemma DecoratedReadings(before: string, name: string, after: string)
    requires AllDigits(before) && AllDigits(after) && Compact(name) != ""
    ensures var c := before + Compact(name) + after;
            Compact(name) in Variants(before + name + after) <==>
              Compact(name) in Readings(c)
  {
    DecoratedCompact(before, name, after);
  }

  /** Surrounding digits leave a name among its own readings exactly when no digit touches a digit. */
  lemma ReadingSurvivesIff(before: string, name: string, after: string)
    requires AllDigits(before) && AllDigits(after) && Compact(name) != ""
    ensures Compact(name) in Variants(before + name + after) <==> Decorable(before, Compact(name), after)
  {
    DecoratedReadings(before, name, after);
    if Decorable(before, Compact(name), after) {
      DigitsDrop(before, Compact(name), after);
    } else if Compact(name) in Variants(before + name + after) {
      DroppedIsDecorable(before, Compact(name), after);
    }
  }

  lemma {:induction false} LeadingDigitsVanish(d: string, x: string)
    requires AllDigits(d)
    ensures DropLeadingDigits(d + x) == DropLeadingDigits(x)
  {
    if d == "" {
      assert d + x == x;
    } else {
      assert (d + x)[1..] == d[1..] + x;
      LeadingDigitsVanish(d[1..], x);
    }
  }

  lemma {:induction false} TrailingDigitsVanish(x: string, d: string)
    requires AllDigits(d)
    ensures DropTrailingDigits(x + d) == DropTrailingDigits(x)
  {
    if d == "" {
      assert x + d == x;
    } else {
      assert (x + d)[..|x + d| - 1] == x + d[..|d| - 1];
      TrailingDigitsVanish(x, d[..|d| - 1]);
    }
  }

  /** Letters stop the dropping of leading digits, whatever follows. */
  lemma {:induction false} LeadingDigitsStop(c: string, x: string)
    requires DropLeadingDigits(c) != ""
    ensures DropLeadingDigits(c + x) == DropLeadingDigits(c) + x
  {
    if Digit(c[0]) {
      assert (c + x)[1..] == c[1..] + x;
      LeadingDigitsStop(c[1..], x);
    }
  }

  /** The reading without any outer digits stays, whatever digits are added. */
  lemma NakedReadingStays(before: string, c: string, after: string)
    requires AllDigits(before) && AllDigits(after) && DropLeadingDigits(c) != ""
    ensures DropTrailingDigits(DropLeadingDigits(before + c + after)) == DropTrailingDigits(DropLeadingDigits(c))
  {
    assert before + c + after == before + (c + after);
    LeadingDigitsVanish(before, c + after);
    LeadingDigitsStop(c, after);
    TrailingDigitsVanish(DropLeadingDigits(c), after);
  }

  /** Without leading digits: the added trailing ones go, unless they touch a digit. */
  lemma LeadingReadingStays(before: string, c: string, after: string)
    requires AllDigits(before) && AllDigits(after) && Decorable(before, c, after) && DropLeadingDigits(c) != ""
    ensures DropLeadingDigits(c) in Readings(before + c + after)
  {
    var w := DropLeadingDigits(c);
    DropLeadingEnds(c);
    assert before + c + after == before + (c + after);
    LeadingDigitsVanish(before, c + after);
    LeadingDigitsStop(c, after);
    if after == "" {
      assert w + after == w;
    } else {
      TrailingDigitsDrop(w, after);
    }
  }

  /** Without trailing digits: likewise. */
  lemma TrailingReadingStays(before: string, c: string, after: string)
    requires AllDigits(before) && AllDigits(after) && Decorable(before, c, after) && DropTrailingDigits(c) != ""
    ensures DropTrailingDigits(c) in Readings(before + c + after)
  {
    TrailingDigitsVanish(before + c, after);
    if before == "" {
      assert before + c == c;
    } else {
      assert DropLeadingDigits(c) == c;
      NakedReadingStays(before, c, after);
    }
  }

  /** Every reading of a name stays a reading when digits are added that touch no digit of it. */
  lemma ReadingsStay(before: string, c: string, after: string, v: string)
    requires AllDigits(before) && AllDigits(after) && Decorable(before, c, after) && v in Readings(c) && v != ""
    ensures v in Readings(before + c + after)
  {
    DropTrailingEnds(DropLeadingDigits(c));
    if v == c {
      DigitsDrop(before, c, after);
    } else if v == DropTrailingDigits(c) {
      TrailingReadingStays(before, c, after);
    } else if v == DropLeadingDigits(c) {
      LeadingReadingStays(before, c, after);
    } else {
      NakedReadingStays(before, c, after);
    }
  }

  lemma VariantsAreReadings(before: string, name: string, after: string)
    requires AllDigits(before) && AllDigits(after)
    ensures Variants(name) == Readings(Compact(name)) - {""}
    ensures Variants(before + name + after) == Readings(before + Compact(name) + after) - {""}
  {
    DecoratedCompact(before, name, after);
  }

  /** Digits around a name, reserved in whichever reading, do not free it, unless they touch a digit of its own. */
  lemma DigitsDoNotHelp(before: string, name: string, after: string, P: set<string>, F: set<string>)
    requires AllDigits(before) && AllDigits(after) && Reserved(name, P, F)
    requires Decorable(before, Compact(name), after)
    ensures Reserved(before + name + after, P, F)
  {
    VariantsAreReadings(before, name, after);
    var v :| v in Variants(name) && Splits(Skeleton(v), P, F);
    ReadingsStay(before, Compact(name), after, v);
  }

  /** A name reserved without its outer digits stays reserved with any digits around it. */
  lemma NakedNameStaysReserved(before: string, name: string, after: string, P: set<string>, F: set<string>)
    requires AllDigits(before) && AllDigits(after)
    requires var v := DropTrailingDigits(DropLeadingDigits(Compact(name))); v != "" && Splits(Skeleton(v), P, F)
    ensures Reserved(before + name + after, P, F)
  {
    VariantsAreReadings(before, name, after);
    NakedReadingStays(before, Compact(name), after);
    var v := DropTrailingDigits(DropLeadingDigits(Compact(name)));
    assert v in Variants(before + name + after);
  }

  lemma DecoratedCompact(before: string, name: string, after: string)
    requires AllDigits(before) && AllDigits(after)
    ensures Compact(before + name + after) == before + Compact(name) + after
  {
    CompactJoins(before + name, after);
    CompactJoins(before, name);
    CompactDigits(before);
    CompactDigits(after);
  }
}
