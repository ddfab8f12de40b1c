/**
  The shipped word lists of src/common/reserved-usernames.ts: every entry is reserved, and what the
  entries have in common letter by letter.
 */
module ReservedDictionary {
  import opened Common
  import opened NameSegmentation
  import opened ReservedNames

  const BRANDS: set<string> := {"guap", "tmrw", "tomorrow", "guapwallet"}

  const ROLES: set<string> := {
    "admin", "app", "bot", "care", "help", "hq", "info", "news", "official", "ops", "pay", "payments",
    "security", "staff", "support", "team", "wallet"}

  const STANDALONE: set<string> := {
    "abuse", "admin", "administrator", "billing", "ceo", "compliance", "contact", "customerservice",
    "customersupport", "flashnet", "help", "helpdesk", "hostmaster", "info", "legal", "moderator", "no-reply",
    "noreply", "official", "operator", "orchestra", "payments", "postmaster", "privacy", "refund", "refunds",
    "root", "security", "staff", "superuser", "support", "sysadmin", "system", "team", "verify",
    "verification", "webmaster"}

  const FILLERS: set<string> := {"the", "real", "my", "true", "original", "verified"}

  const DEFAULT_RESERVED := BRANDS + ROLES + STANDALONE

  function Skeletons(words: set<string>): set<string> {
    set w | w in words :: Skeleton(w)
  }

  // ----- the listed words, letter by letter

  /** The reserved and filler skeletons the service always has. */
  const RESERVED_SKELETONS := Skeletons(DEFAULT_RESERVED)
  const FILLER_SKELETONS := Skeletons(FILLERS)

  /** From position j on: lower-case letters, no `rn` and no `vv`. */
  predicate Orderly(w: string, j: nat)
    decreases |w| - j
  {
    j < |w| ==>
      && 'a' <= w[j] <= 'z'
      && (j + 1 < |w| ==> !(w[j] == 'r' && w[j + 1] == 'n') && !(w[j] == 'v' && w[j + 1] == 'v'))
      && Orderly(w, j + 1)
  }

  predicate Lacks(w: string, c: char, j: nat)
    decreases |w| - j
  {
    j < |w| ==> w[j] != c && Lacks(w, c, j + 1)
  }

  /** A word whose first letters differ, so that collapsing leaves at least two. */
  predicate Proper(w: string) {
    |w| >= 2 && w[0] != w[1] && Orderly(w, 0)
  }

  lemma {:induction false} OrderlyParts(w: string, j: nat)
    requires j <= |w| && Orderly(w, j)
    ensures forall i :: j <= i < |w| ==> 'a' <= w[i] <= 'z'
    ensures forall i :: j <= i < |w| - 1 ==> !(w[i] == 'r' && w[i + 1] == 'n') && !(w[i] == 'v' && w[i + 1] == 'v')
    decreases |w| - j
  {
    if j < |w| {
      OrderlyParts(w, j + 1);
    }
  }

  lemma {:induction false} LacksEverywhere(w: string, c: char, j: nat)
    requires j <= |w| && Lacks(w, c, j)
    ensures forall i :: j <= i < |w| ==> w[i] != c
    decreases |w| - j
  {
    if j < |w| {
      LacksEverywhere(w, c, j + 1);
    }
  }

  predicate NoPair(s: string, a: char, b: char) {
    forall i :: 0 <= i < |s| - 1 ==> !(s[i] == a && s[i + 1] == b)
  }

  lemma {:induction false} NoPairNoFold(s: string, a: char, b: char, m: char)
    requires NoPair(s, a, b)
    ensures FoldPair(s, a, b, m) == s
  {
    if |s| >= 2 {
      NoPairNoFold(s[1..], a, b, m);
    }
  }

  lemma {:induction false} AlreadyCompact(s: string)
    requires forall i :: 0 <= i < |s| ==> !Separator(s[i]) && LowerChar(s[i]) == s[i]
    ensures Compact(s) == s
  {
    if s != "" {
      AlreadyCompact(s[1..]);
    }
  }

  lemma OrderlySkeleton(w: string)
    requires Orderly(w, 0)
    ensures Compact(w) == w && FoldPairs(w) == w && Skeleton(w) == FoldSingles(Collapse(w))
  {
    OrderlyParts(w, 0);
    AlreadyCompact(w);
    NoPairNoFold(w, 'r', 'n', 'm');
    NoPairNoFold(w, 'v', 'v', 'w');
  }

  /** The listed words with an m, and those that end in r. */
  const M_WORDS: set<string> := {
    "admin", "administrator", "compliance", "customerservice", "customersupport", "hostmaster", "moderator", "my",
    "payments", "postmaster", "sysadmin", "system", "team", "tmrw", "tomorrow", "webmaster"}

  const R_WORDS: set<string> := {
    "administrator", "hostmaster", "moderator", "operator", "postmaster", "superuser", "webmaster"}

  /** What the arguments below need to know of a listed word without separators. */
  predicate Known(c: string) {
    && Proper(c)
    && (Lacks(c, 'm', 0) || c in M_WORDS)
    && (c[0] == 'n' ==> c == "news" || c == "noreply")
    && c[0] != 'u' && (c[0] == 'i' || c[0] == 'l' ==> c[1] != 'g' && c[1] != 'q')
    && c[|c| - 1] != 'v'
    && (c[|c| - 1] == 'r' ==> c in R_WORDS)
  }

  lemma BrandsAreKnown(w: string)
    requires w in BRANDS
    ensures Known(w)
  {
    KnownBrands();
  }

  lemma KnownBrands()
    ensures forall w :: (w in {"guap", "tmrw", "tomorrow", "guapwallet"}) ==> Known(w)
  {
    assert Known("guap");
    assert Known("tmrw");
    assert Known("tomorrow");
    assert Known("guapwallet");
  }

  lemma RolesAreKnown(w: string)
    requires w in ROLES
    ensures Known(w)
  {
    KnownRoles1();
    KnownRoles2();
    KnownRoles3();
  }

  lemma KnownRoles1()
    ensures forall w :: (w in {"admin", "app", "bot", "care", "help", "hq"}) ==> Known(w)
  {
    assert Known("admin");
    assert Known("app");
    assert Known("bot");
    assert Known("care");
    assert Known("help");
    assert Known("hq");
  }

  lemma KnownRoles2()
    ensures forall w :: (w in {"info", "news", "official", "ops", "pay", "payments"}) ==> Known(w)
  {
    assert Known("info");
    assert Known("news");
    assert Known("official");
    assert Known("ops");
    assert Known("pay");
    assert Known("payments");
  }

  lemma KnownRoles3()
    ensures forall w :: (w in {"security", "staff", "support", "team", "wallet"}) ==> Known(w)
  {
    assert Known("security");
    assert Known("staff");
    assert Known("support");
    assert Known("team");
    assert Known("wallet");
  }

  lemma StandaloneAreKnown(w: string)
    requires w in STANDALONE && w != "no-reply"
    ensures Known(w)
  {
    KnownStandalone1();
    KnownStandalone2();
    KnownCustomerWords();
    KnownStandalone3();
    KnownStandalone4();
    KnownStandalone5();
    KnownStandalone6();
  }

  lemma KnownStandalone1()
    ensures forall w :: (w in {"abuse", "admin", "administrator", "billing", "ceo", "compliance"}) ==> Known(w)
  {
    assert Known("abuse");
    assert Known("admin");
    assert Known("administrator");
    assert Known("billing");
    assert Known("ceo");
    assert Known("compliance");
  }

  lemma KnownStandalone2()
    ensures forall w :: (w in {"contact", "flashnet", "help", "helpdesk"}) ==> Known(w)
  {
    assert Known("contact");
    assert Known("flashnet");
    assert Known("help");
    assert Known("helpdesk");
  }

  lemma KnownCustomerWords()
    ensures Known("customerservice") && Known("customersupport")
  {
    assert Orderly("customerservice", 8);
    assert Known("customerservice");
    assert Orderly("customersupport", 8);
    assert Known("customersupport");
  }

  lemma KnownStandalone3()
    ensures forall w :: (w in {"hostmaster", "info", "legal", "moderator", "noreply", "official"}) ==> Known(w)
  {
    assert Known("hostmaster");
    assert Known("info");
    assert Known("legal");
    assert Known("moderator");
    assert Known("noreply");
    assert Known("official");
  }

  lemma KnownStandalone4()
    ensures forall w :: (w in {"operator", "orchestra", "payments", "postmaster", "privacy", "refund"}) ==> Known(w)
  {
    assert Known("operator");
    assert Known("orchestra");
    assert Known("payments");
    assert Known("postmaster");
    assert Known("privacy");
    assert Known("refund");
  }

  lemma KnownStandalone5()
    ensures forall w :: (w in {"refunds", "root", "security", "staff", "superuser", "support"}) ==> Known(w)
  {
    assert Known("refunds");
    assert Known("root");
    assert Known("security");
    assert Known("staff");
    assert Known("superuser");
    assert Known("support");
  }

  lemma KnownStandalone6()
    ensures forall w :: (w in {"sysadmin", "system", "team", "verify", "verification", "webmaster"}) ==> Known(w)
  {
    assert Known("sysadmin");
    assert Known("system");
    assert Known("team");
    assert Known("verify");
    assert Orderly("verification", 6);
    assert Lacks("verification", 'm', 6);
    assert Known("verification");
    assert Known("webmaster");
  }

  lemma FillersAreKnown(w: string)
    requires w in FILLERS
    ensures Known(w)
  {
    KnownFillers();
  }

  lemma KnownFillers()
    ensures forall w :: (w in {"the", "real", "my", "true", "original", "verified"}) ==> Known(w)
  {
    assert Known("the");
    assert Known("real");
    assert Known("my");
    assert Known("true");
    assert Known("original");
    assert Known("verified");
  }

  lemma SeparatorVanishes(a: string, b: string)
    ensures Compact(a + "-" + b) == Compact(a) + Compact(b)
  {
    CompactJoins(a + "-", b);
    CompactJoins(a, "-");
    assert "-"[1..] == "";
  }

  lemma NoReplyCompact()
    ensures Compact("no-reply") == "noreply"
  {
    SeparatorVanishes("no", "reply");
    AlreadyCompact("no");
    AlreadyCompact("reply");
    assert "no" + "-" + "reply" == "no-reply" && "no" + "reply" == "noreply";
  }

  /** Every listed word, without its separators, is known, and has the same skeleton. */
  lemma ListedIsKnown(w: string)
    requires w in DEFAULT_RESERVED + FILLERS
    ensures Known(Compact(w)) && Skeleton(Compact(w)) == Skeleton(w) && Skeleton(w) == FoldSingles(Collapse(Compact(w)))
  {
    if w == "no-reply" {
      NoReplyCompact();
      StandaloneAreKnown("noreply");
    } else {
      if w in BRANDS { BrandsAreKnown(w); }
      else if w in ROLES { RolesAreKnown(w); }
      else if w in FILLERS { FillersAreKnown(w); }
      else { StandaloneAreKnown(w); }
      OrderlySkeleton(w);
    }
    CompactTwice(w);
    OrderlySkeleton(Compact(w));
  }

  lemma ListedSkeletonIsLong(w: string)
    requires w in DEFAULT_RESERVED + FILLERS
    ensures |Skeleton(w)| >= 2
  {
    ListedIsKnown(w);
    CollapseEnds(Compact(w)[1..]);
  }

  /** Every listed word is reserved, alone or after any compound of listed words and fillers it joins cleanly. */
  lemma EveryEntryIsReserved(w: string, before: string, extra: set<string>)
    requires w in DEFAULT_RESERVED
    ensures var P, F := RESERVED_SKELETONS + extra, FILLER_SKELETONS;
            && Reserved(w, P, F)
            && (Reaches(Skeleton(before), P + F, |Skeleton(before)|) && JoinsCleanly(Compact(before), Compact(w)) ==>
                  Reserved(before + w, P, F))
  {
    var P, F := RESERVED_SKELETONS + extra, FILLER_SKELETONS;
    ListedSkeletonIsLong(w);
    LookalikeIsReserved(w, P, F);
    if Reaches(Skeleton(before), P + F, |Skeleton(before)|) && JoinsCleanly(Compact(before), Compact(w)) {
      CompoundIsReserved(before, w, P, F);
    }
  }
}
