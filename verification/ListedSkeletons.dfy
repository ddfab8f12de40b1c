/**
  What the skeletons of the shipped words look like, letter by letter: their first and last letters,
  and the neighbours of every m in them.
 */
module ListedSkeletons {
  import opened ReservedNames
  import opened ReservedDictionary

  // ----- the skeletons that hold an m or end in r

  /** From position i on, c collapses and folds to what k holds from position j on. */
  predicate FoldsTo(c: string, i: nat, k: string, j: nat)
    decreases |c| - i
  {
    if i >= |c| then j == |k|
    else if i + 1 < |c| && c[i] == c[i + 1] then FoldsTo(c, i + 1, k, j)
    else j < |k| && k[j] == Lookalike(c[i]) && FoldsTo(c, i + 1, k, j + 1)
  }

  lemma {:induction false} FoldsToSkeleton(c: string, i: nat, k: string, j: nat)
    requires i <= |c| && j <= |k| && FoldsTo(c, i, k, j)
    ensures FoldSingles(Collapse(c[i..])) == k[j..]
    decreases |c| - i
  {
    if i < |c| {
      assert c[i..][1..] == c[i + 1..];
      if i + 1 < |c| && c[i] == c[i + 1] {
        FoldsToSkeleton(c, i + 1, k, j);
      } else {
        FoldsToSkeleton(c, i + 1, k, j + 1);
        assert Collapse(c[i..]) == [c[i]] + Collapse(c[i + 1..]);
        FoldSinglesJoins([c[i]], Collapse(c[i + 1..]));
        assert k[j..] == [k[j]] + k[j + 1..];
      }
    }
  }

  /** The m at position j of k has a neighbourhood that no bridged join has. */
  predicate Clash(k: string, j: nat)
    requires j < |k|
  {
    || (j >= 1 && k[j - 1] != 'r' && k[j - 1] != 'o' && k[j - 1] != 'e')
    || (j >= 4 && k[j - 4] == 'y')
    || (j + 1 < |k| && k[j + 1] != 'e' && k[j + 1] != 'o' && k[j + 1] != 'n')
    || (j + 2 < |k| && k[j + 1] == 'e' && k[j + 2] != 'w')
    || (j + 2 < |k| && k[j + 1] == 'o' && k[j + 2] != 'r')
    || (j + 3 < |k| && k[j + 1] == 'o' && k[j + 3] != 'e')
  }

  predicate Clashing(k: string, j: nat)
    decreases |k| - j
  {
    j < |k| ==> (k[j] == 'm' ==> Clash(k, j)) && Clashing(k, j + 1)
  }

  lemma {:induction false} ClashingAt(k: string, from: nat, j: nat)
    requires from <= j < |k| && Clashing(k, from) && k[j] == 'm'
    ensures Clash(k, j)
    decreases |k| - from
  {
    if from < j {
      ClashingAt(k, from + 1, j);
    }
  }

  /** A letter no digit is read as. */
  predicate Solid(c: char) {
    c != 'o' && c != 'i' && c != 'z' && c != 'e' && c != 'a' && c != 's' && c != 'g' && c != 't' && c != 'b'
  }

  /** A skeleton that ends in r behind o or e, long enough, with a solid letter near its start. */
  predicate Titled(k: string) {
    && |k| >= 8 && (Solid(k[0]) || Solid(k[1]))
    && k[|k| - 1] == 'r' && (k[|k| - 2] == 'o' || k[|k| - 2] == 'e')
    && k[|k| - 4] != 'y' && k[|k| - 5] != 'y'
  }

  /** From position j on, w is its own skeleton. */
  predicate Fixed(w: string, j: nat)
    decreases |w| - j
  {
    j < |w| ==>
      'a' <= w[j] <= 'z' && w[j] != 'l' && w[j] != 'q' && (j + 1 < |w| ==> w[j] != w[j + 1]) && Fixed(w, j + 1)
  }

  lemma {:induction false} FixedSkeleton(w: string, j: nat)
    requires j <= |w| && Fixed(w, j)
    ensures FoldSingles(Collapse(w[j..])) == w[j..]
    decreases |w| - j
  {
    if j < |w| {
      assert w[j..][1..] == w[j + 1..] && w[j..] == [w[j]] + w[j + 1..];
      FixedSkeleton(w, j + 1);
      assert Collapse(w[j..]) == [w[j]] + Collapse(w[j + 1..]);
      FoldSinglesJoins([w[j]], Collapse(w[j + 1..]));
    }
  }

  /** A word that is its own skeleton, with every m of it clashing. */
  predicate MWord(c: string) {
    Fixed(c, 0) && Clashing(c, 0)
  }

  /** A word that folds to k, with every m of k clashing. */
  predicate MWordAs(c: string, k: string) {
    FoldsTo(c, 0, k, 0) && Clashing(k, 0)
  }

  predicate RWord(c: string) {
    Fixed(c, 0) && Titled(c)
  }

  lemma MWords1(c: string)
    requires c in {"admin", "administrator", "customerservice"}
    ensures MWord(c)
  {
    assert MWord("admin");
    assert MWord("administrator");
    assert Fixed("customerservice", 10);
    assert Fixed("customerservice", 5);
    assert Clashing("customerservice", 10);
    assert Clashing("customerservice", 5);
    assert MWord("customerservice");
  }

  lemma MWords2(c: string)
    requires c in {"hostmaster", "moderator", "my", "payments", "postmaster"}
    ensures MWord(c)
  {
    assert MWord("hostmaster");
    assert MWord("moderator");
    assert MWord("my");
    assert MWord("payments");
    assert MWord("postmaster");
  }

  lemma MWords3(c: string)
    requires c in {"sysadmin", "system", "team", "tmrw", "webmaster"}
    ensures MWord(c)
  {
    assert MWord("sysadmin");
    assert MWord("system");
    assert MWord("team");
    assert MWord("tmrw");
    assert MWord("webmaster");
  }

  lemma MWords4()
    ensures MWordAs("tomorrow", "tomorow") && MWordAs("compliance", "compiiance")
  {
    assert MWordAs("tomorrow", "tomorow");
    assert MWordAs("compliance", "compiiance");
  }

  lemma MWords5()
    ensures MWordAs("customersupport", "customersuport")
  {
    assert FoldsTo("customersupport", 8, "customersuport", 8);
    assert Clashing("customersuport", 8);
    assert MWordAs("customersupport", "customersuport");
  }

  lemma MWordsAsThemselves(c: string)
    requires c in M_WORDS && c != "tomorrow" && c != "compliance" && c != "customersupport"
    ensures MWord(c)
  {
    if c == "admin" || c == "administrator" || c == "customerservice" {
      MWords1(c);
    } else if c == "hostmaster" || c == "moderator" || c == "my" || c == "payments" || c == "postmaster" {
      MWords2(c);
    } else {
      MWords3(c);
    }
  }

  lemma MWords(c: string)
    requires c in M_WORDS
    ensures MWord(c) || exists k :: MWordAs(c, k)
  {
    if c == "tomorrow" || c == "compliance" {
      MWords4();
    } else if c == "customersupport" {
      MWords5();
    } else {
      MWordsAsThemselves(c);
    }
  }

  lemma RWords1(c: string)
    requires c in {"administrator", "hostmaster", "moderator"}
    ensures RWord(c)
  {
    assert RWord("administrator");
    assert RWord("hostmaster");
    assert RWord("moderator");
  }

  lemma RWords2(c: string)
    requires c in {"operator", "postmaster", "superuser", "webmaster"}
    ensures RWord(c)
  {
    assert RWord("operator");
    assert RWord("postmaster");
    assert RWord("superuser");
    assert RWord("webmaster");
  }

  lemma {:induction false} CollapseKeepsLetters(s: string, c: char)
    requires forall i :: 0 <= i < |s| ==> s[i] != c
    ensures forall i :: 0 <= i < |Collapse(s)| ==> Collapse(s)[i] != c
  {
    if |s| >= 2 {
      CollapseKeepsLetters(s[1..], c);
    }
  }

  ghost predicate AllClash(k: string) {
    forall j :: 0 <= j < |k| && k[j] == 'm' ==> Clash(k, j)
  }

  lemma ClashingAll(k: string)
    requires Clashing(k, 0)
    ensures AllClash(k)
  {
    forall j | 0 <= j < |k| && k[j] == 'm' ensures Clash(k, j) {
      ClashingAt(k, 0, j);
    }
  }

  lemma MWordClashes(c: string)
    requires c in M_WORDS
    ensures AllClash(FoldSingles(Collapse(c)))
  {
    MWords(c);
    assert c[0..] == c;
    if MWord(c) {
      FixedSkeleton(c, 0);
      ClashingAll(c);
    } else {
      var k :| MWordAs(c, k);
      FoldsToSkeleton(c, 0, k, 0);
      assert k[0..] == k;
      ClashingAll(k);
    }
  }

  lemma NoMNoClash(c: string)
    requires Lacks(c, 'm', 0)
    ensures AllClash(FoldSingles(Collapse(c)))
  {
    LacksEverywhere(c, 'm', 0);
    CollapseKeepsLetters(c, 'm');
  }

  lemma RWords(c: string)
    requires c in R_WORDS
    ensures RWord(c)
  {
    if c in {"administrator", "hostmaster", "moderator"} { RWords1(c); } else { RWords2(c); }
  }

  lemma RWordIsTitled(c: string)
    requires RWord(c)
    ensures Titled(FoldSingles(Collapse(c)))
  {
    FixedSkeleton(c, 0);
    assert c[0..] == c;
  }

  lemma LastLetter(c: string)
    requires c != ""
    ensures var k := FoldSingles(Collapse(c)); k != "" && k[|k| - 1] == Lookalike(c[|c| - 1])
  {
    CollapseEnds(c);
  }

  lemma FirstLetters(c: string)
    requires |c| >= 2 && c[0] != c[1]
    ensures var k := FoldSingles(Collapse(c)); |k| >= 2 && k[0] == Lookalike(c[0]) && k[1] == Lookalike(c[1])
  {
    CollapseEnds(c[1..]);
  }

  /** A skeleton that does not end in v, and ends in r only as a title. */
  predicate Ends(k: string) {
    k != "" && k[|k| - 1] != 'v' && (k[|k| - 1] == 'r' ==> Titled(k))
  }

  /** What every listed skeleton looks like. */
  ghost predicate Listed(k: string) {
    AllClash(k) && Starts(k) && Ends(k) && (k[0] == 'n' ==> NLike(k))
  }

  /** The start of the skeleton of `news` or of `noreply`. */
  predicate NLike(k: string) {
    && k != "" && k[0] == 'n'
    && (|k| > 1 ==>
          || (k[1] == 'e' && (|k| > 2 ==> k[2] == 'w'))
          || (k[1] == 'o' && (|k| > 2 ==> k[2] == 'r') && (|k| > 3 ==> k[3] == 'e')))
  }

  lemma NewsIsNLike(c: string)
    requires c == "news"
    ensures NLike(FoldSingles(Collapse(c)))
  {
    assert Fixed("news", 0);
    FixedSkeleton(c, 0);
    assert c[0..] == c;
  }

  lemma NoReplyIsNLike(c: string, k: string)
    requires c == "noreply" && k == "norepiy"
    ensures NLike(FoldSingles(Collapse(c)))
  {
    assert FoldsTo("noreply", 0, "norepiy", 0);
    FoldsToSkeleton(c, 0, k, 0);
    assert c[0..] == c && k[0..] == k;
  }

  lemma NWords(c: string)
    requires c == "news" || c == "noreply"
    ensures NLike(FoldSingles(Collapse(c)))
  {
    if c == "news" { NewsIsNLike(c); } else { NoReplyIsNLike(c, "norepiy"); }
  }

  lemma NotN(c: string)
    requires Proper(c) && c[0] != 'n'
    ensures var k := FoldSingles(Collapse(c)); k != "" && k[0] != 'n'
  {
    FirstLetters(c);
  }

  /** A listed skeleton that starts with n is that of `news` or of `noreply`. */
  lemma KnownN(c: string)
    requires Proper(c) && (c[0] == 'n' ==> c == "news" || c == "noreply")
    ensures var k := FoldSingles(Collapse(c)); k != "" && (k[0] == 'n' ==> NLike(k))
  {
    if c[0] == 'n' { NWords(c); } else { NotN(c); }
  }

  lemma EntryIsListed(w: string)
    requires w in DEFAULT_RESERVED + FILLERS
    ensures Listed(Skeleton(w))
  {
    ListedIsKnown(w);
    KnownIsListed(Compact(w));
  }

  /** A skeleton that starts neither with u nor with ig. */
  predicate Starts(k: string) {
    |k| >= 2 && k[0] != 'u' && !(k[0] == 'i' && k[1] == 'g')
  }

  lemma KnownStarts(c: string)
    requires Proper(c) && c[0] != 'u' && (c[0] == 'i' || c[0] == 'l' ==> c[1] != 'g' && c[1] != 'q')
    ensures Starts(FoldSingles(Collapse(c)))
  {
    OrderlyParts(c, 0);
    FirstLetters(c);
  }

  lemma KnownEnds(c: string)
    requires c != "" && c[|c| - 1] != 'v' && (c[|c| - 1] == 'r' ==> RWord(c))
    ensures Ends(FoldSingles(Collapse(c)))
  {
    LastLetter(c);
    if c[|c| - 1] == 'r' { RWordIsTitled(c); }
    EndsLike(FoldSingles(Collapse(c)), c[|c| - 1]);
  }

  lemma EndsLike(k: string, last: char)
    requires k != "" && k[|k| - 1] == Lookalike(last) && last != 'v' && (last == 'r' ==> Titled(k))
    ensures Ends(k)
  {
  }

  lemma KnownClashes(c: string)
    requires Lacks(c, 'm', 0) || c in M_WORDS
    ensures AllClash(FoldSingles(Collapse(c)))
  {
    if Lacks(c, 'm', 0) { NoMNoClash(c); } else { MWordClashes(c); }
  }

  lemma KnownIsListed(c: string)
    requires Known(c)
    ensures Listed(FoldSingles(Collapse(c)))
  {
    KnownStarts(c);
    KnownClashes(c);
    KnownN(c);
    if c[|c| - 1] == 'r' { RWords(c); }
    KnownEnds(c);
  }

  ghost predicate AllListed(words: set<string>) {
    forall k :: k in words ==> Listed(k)
  }

  lemma ShippedAreListed()
    ensures AllListed(RESERVED_SKELETONS + FILLER_SKELETONS)
  {
    forall k | k in RESERVED_SKELETONS + FILLER_SKELETONS ensures Listed(k) {
      var w :| w in DEFAULT_RESERVED + FILLERS && k == Skeleton(w);
      EntryIsListed(w);
    }
  }
}
