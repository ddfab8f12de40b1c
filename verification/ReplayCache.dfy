/**
  The replay cache of src/auth/spark-signature.guard.ts: buckets of digests per public key, pruned
  on use, swept when there are many, capped per key. It is shown to answer exactly as a log that
  never forgets. Times are reals because the signed timestamp and the tolerance are JavaScript
  numbers.
 */
module ReplayCache {
  import opened Common

  type Bucket = map<string, real>
  type Cache = map<string, Bucket>

  const MAX_PER_PUBKEY: nat := 200
  const SWEEP_THRESHOLD: nat := 10000

  datatype Verdict = Accepted | Replayed | Full

  // ----- the cache

  function Prune(b: Bucket, now: real): Bucket {
    map k | k in b && b[k] >= now :: b[k]
  }

  function Sweep(c: Cache, now: real): Cache {
    map pk | pk in c && Prune(c[pk], now) != map[] :: Prune(c[pk], now)
  }

  function BucketOf(c: Cache, pk: string): Bucket {
    if pk in c then c[pk] else map[]
  }

  /** The cache after the sweep and the pruning that precede the look-up. */
  function Prepare(c: Cache, pk: string, now: real): Cache {
    var swept := if |c| > SWEEP_THRESHOLD then Sweep(c, now) else c;
    swept[pk := Prune(BucketOf(swept, pk), now)]
  }

  function VerdictOf(b: Bucket, digest: string): Verdict {
    if digest in b then Replayed else if |b| >= MAX_PER_PUBKEY then Full else Accepted
  }

  /** rejectReplay at clock reading `now`, for a message whose window closes at `expiry`. */
  function Present(c: Cache, pk: string, digest: string, expiry: real, now: real): (Verdict, Cache) {
    var c1 := Prepare(c, pk, now);
    var v := VerdictOf(c1[pk], digest);
    (v, if v == Accepted then c1[pk := c1[pk][digest := expiry]] else c1)
  }

  // ----- the log it refines

  datatype Entry = Entry(pubkey: string, message: string, expiry: real)

  /** The entries of one key that are still inside their window. */
  function Live(log: seq<Entry>, pk: string, now: real): set<nat> {
    set i: nat | i < |log| && log[i].pubkey == pk && log[i].expiry >= now
  }

  function LogVerdict(log: seq<Entry>, pk: string, message: string, now: real): Verdict {
    if exists i :: i in Live(log, pk, now) && log[i].message == message then Replayed
    else if |Live(log, pk, now)| >= MAX_PER_PUBKEY then Full
    else Accepted
  }

  function Record(log: seq<Entry>, e: Entry, v: Verdict): seq<Entry> {
    if v == Accepted then log + [e] else log
  }

  ghost predicate Injective(sha: string -> string) {
    forall a, b :: sha(a) == sha(b) ==> a == b
  }

  /** The cache holds this log entry. */
  ghost predicate Cached(c: Cache, e: Entry, sha: string -> string) {
    var b := BucketOf(c, e.pubkey);
    sha(e.message) in b && b[sha(e.message)] == e.expiry
  }

  /** Entry i of the log is what the cache holds under this key and digest. */
  predicate LoggedAt(log: seq<Entry>, sha: string -> string, pk: string, digest: string, expiry: real, i: int) {
    0 <= i < |log| && log[i].pubkey == pk && log[i].expiry == expiry && sha(log[i].message) == digest
  }

  ghost predicate Logged(log: seq<Entry>, sha: string -> string, pk: string, digest: string, expiry: real) {
    exists i :: LoggedAt(log, sha, pk, digest, expiry, i)
  }

  /** No message is live twice for one key. */
  ghost predicate NoLiveRepeats(log: seq<Entry>, clock: real) {
    forall i, j :: 0 <= i < j < |log| && BothLive(log[i], log[j], clock) ==> log[i].message != log[j].message
  }

  predicate BothLive(a: Entry, b: Entry, clock: real) {
    a.expiry >= clock && b.expiry >= clock && a.pubkey == b.pubkey
  }

  ghost predicate Capped(c: Cache) {
    forall pk :: |BucketOf(c, pk)| <= MAX_PER_PUBKEY
  }

  /** From `clock` on, the cache and the log hold the same live entries, each once. */
  ghost predicate Coupled(c: Cache, log: seq<Entry>, sha: string -> string, clock: real) {
    && (forall i :: 0 <= i < |log| && log[i].expiry >= clock ==> Cached(c, log[i], sha))
    && (forall pk, k :: k in BucketOf(c, pk) && BucketOf(c, pk)[k] >= clock ==>
          Logged(log, sha, pk, k, BucketOf(c, pk)[k]))
    && NoLiveRepeats(log, clock)
    && Capped(c)
  }

  lemma PruneShrinks(b: Bucket, now: real)
    ensures |Prune(b, now)| <= |b|
  {
    assert Prune(b, now).Keys <= b.Keys;
    SubsetSize(Prune(b, now).Keys, b.Keys);
  }

  /** Preparing the cache drops no live entry of any key, and nothing else survives for pk. */
  lemma PrepareKeepsLive(c: Cache, pk: string, now: real)
    ensures forall q :: Prune(BucketOf(Prepare(c, pk, now), q), now) == Prune(BucketOf(c, q), now)
    ensures Prepare(c, pk, now)[pk] == Prune(BucketOf(c, pk), now)
    ensures (forall q :: |BucketOf(c, q)| <= MAX_PER_PUBKEY) ==>
              forall q :: |BucketOf(Prepare(c, pk, now), q)| <= MAX_PER_PUBKEY
  {
    forall q
      ensures Prune(BucketOf(Prepare(c, pk, now), q), now) == Prune(BucketOf(c, q), now)
    {
      PruneTwice(BucketOf(c, q), now);
    }
    PruneTwice(BucketOf(c, pk), now);
    if forall q :: |BucketOf(c, q)| <= MAX_PER_PUBKEY {
      forall q
        ensures |BucketOf(Prepare(c, pk, now), q)| <= MAX_PER_PUBKEY
      {
        PruneShrinks(BucketOf(c, q), now);
      }
    }
  }

  lemma PruneTwice(b: Bucket, now: real)
    ensures Prune(Prune(b, now), now) == Prune(b, now)
  {
  }

  /** A step for one key never drops a live entry of another key. */
  lemma OtherKeysKeepTheirEntries(c: Cache, pk: string, digest: string, expiry: real, now: real, q: string)
    requires q != pk
    ensures Prune(BucketOf(Present(c, pk, digest, expiry, now).1, q), now) == Prune(BucketOf(c, q), now)
  {
    PrepareKeepsLive(c, pk, now);
    assert BucketOf(Present(c, pk, digest, expiry, now).1, q) == BucketOf(Prepare(c, pk, now), q);
  }

  // ----- one step of the refinement

  lemma {:induction false} ImageSize(s: set<nat>, f: nat -> string)
    requires forall i, j :: i in s && j in s && f(i) == f(j) ==> i == j
    ensures |set i | i in s :: f(i)| == |s|
  {
    if s != {} {
      var x :| x in s;
      var rest := s - {x};
      ImageSize(rest, f);
      assert (set i | i in s :: f(i)) == (set i | i in rest :: f(i)) + {f(x)};
    }
  }

  lemma LiveDistinct(log: seq<Entry>, sha: string -> string, clock: real, pk: string, i: nat, j: nat)
    requires Injective(sha) && NoLiveRepeats(log, clock)
    requires i in Live(log, pk, clock) && j in Live(log, pk, clock) && sha(log[i].message) == sha(log[j].message)
    ensures i == j
  {
  }

  /** The digests of the live entries of a key. */
  function Digests(log: seq<Entry>, sha: string -> string, pk: string, now: real): set<string> {
    set i | i in Live(log, pk, now) :: sha(log[i].message)
  }

  lemma DigestsSize(log: seq<Entry>, sha: string -> string, pk: string, now: real)
    requires Injective(sha) && NoLiveRepeats(log, now)
    ensures |Digests(log, sha, pk, now)| == |Live(log, pk, now)|
  {
    var live := Live(log, pk, now);
    var f := (i: nat) => if i < |log| then sha(log[i].message) else "";
    forall i, j | i in live && j in live && f(i) == f(j)
      ensures i == j
    {
      LiveDistinct(log, sha, now, pk, i, j);
    }
    ImageSize(live, f);
    assert Digests(log, sha, pk, now) == (set i | i in live :: f(i));
  }

  /** A coupled bucket, pruned, holds exactly the digests of the live log entries. */
  lemma LiveKeys(c: Cache, log: seq<Entry>, sha: string -> string, clock: real, pk: string, now: real)
    requires Coupled(c, log, sha, clock) && clock <= now
    ensures Prune(BucketOf(c, pk), now).Keys == Digests(log, sha, pk, now)
  {
    var b := Prune(BucketOf(c, pk), now);
    forall k | k in b.Keys
      ensures k in Digests(log, sha, pk, now)
    {
      assert Logged(log, sha, pk, k, BucketOf(c, pk)[k]);
      var i :| LoggedAt(log, sha, pk, k, BucketOf(c, pk)[k], i);
      assert i in Live(log, pk, now);
    }
    forall k | k in Digests(log, sha, pk, now)
      ensures k in b.Keys
    {
      var i :| i in Live(log, pk, now) && sha(log[i].message) == k;
      assert Cached(c, log[i], sha);
    }
  }

  lemma LaterRepeats(log: seq<Entry>, clock: real, now: real)
    requires NoLiveRepeats(log, clock) && clock <= now
    ensures NoLiveRepeats(log, now)
  {
  }

  /** A coupled bucket, pruned, holds one digest per live log entry. */
  lemma LiveSize(c: Cache, log: seq<Entry>, sha: string -> string, clock: real, pk: string, now: real)
    requires Injective(sha) && Coupled(c, log, sha, clock) && clock <= now
    ensures |Prune(BucketOf(c, pk), now)| == |Live(log, pk, now)|
  {
    LiveKeys(c, log, sha, clock, pk, now);
    LaterRepeats(log, clock, now);
    DigestsSize(log, sha, pk, now);
    assert |Prune(BucketOf(c, pk), now)| == |Prune(BucketOf(c, pk), now).Keys|;
  }

  lemma LiveMessage(log: seq<Entry>, sha: string -> string, pk: string, message: string, now: real)
    requires Injective(sha)
    ensures sha(message) in Digests(log, sha, pk, now) <==>
              exists i :: i in Live(log, pk, now) && log[i].message == message
  {
    if sha(message) in Digests(log, sha, pk, now) {
      var i :| i in Live(log, pk, now) && sha(log[i].message) == sha(message);
      assert log[i].message == message;
    }
  }

  /** The pruned bucket and the log give the same verdict. */
  lemma SameVerdict(c: Cache, log: seq<Entry>, sha: string -> string, clock: real,
                    pk: string, message: string, now: real)
    requires Injective(sha) && Coupled(c, log, sha, clock) && clock <= now
    ensures VerdictOf(Prune(BucketOf(c, pk), now), sha(message)) == LogVerdict(log, pk, message, now)
  {
    LiveSize(c, log, sha, clock, pk, now);
    LiveKeys(c, log, sha, clock, pk, now);
    LiveMessage(log, sha, pk, message, now);
  }

  /** Pruning keeps exactly what is live. */
  lemma KeptByPrune(b: Bucket, now: real, k: string)
    ensures k in Prune(b, now) <==> k in b && b[k] >= now
    ensures k in Prune(b, now) ==> Prune(b, now)[k] == b[k]
  {
  }

  lemma PrepareKeepsCached(c: Cache, pk: string, now: real, e: Entry, sha: string -> string)
    requires Cached(c, e, sha) && e.expiry >= now
    ensures Cached(Prepare(c, pk, now), e, sha)
  {
    PrepareKeepsLive(c, pk, now);
    KeptByPrune(BucketOf(c, e.pubkey), now, sha(e.message));
    KeptByPrune(BucketOf(Prepare(c, pk, now), e.pubkey), now, sha(e.message));
  }

  lemma PrepareAddsNothing(c: Cache, pk: string, now: real, q: string, k: string)
    requires k in BucketOf(Prepare(c, pk, now), q) && BucketOf(Prepare(c, pk, now), q)[k] >= now
    ensures k in BucketOf(c, q) && BucketOf(c, q)[k] == BucketOf(Prepare(c, pk, now), q)[k]
  {
    PrepareKeepsLive(c, pk, now);
    KeptByPrune(BucketOf(c, q), now, k);
    KeptByPrune(BucketOf(Prepare(c, pk, now), q), now, k);
  }

  /** Coupling only looks at entries live from the clock on, so preparing the cache keeps it. */
  lemma PrepareKeepsCoupling(c: Cache, log: seq<Entry>, sha: string -> string, clock: real, pk: string, now: real)
    requires Coupled(c, log, sha, clock) && clock <= now
    ensures Coupled(Prepare(c, pk, now), log, sha, now)
  {
    var c1 := Prepare(c, pk, now);
    PrepareKeepsLive(c, pk, now);
    LaterRepeats(log, clock, now);
    forall i | 0 <= i < |log| && log[i].expiry >= now
      ensures Cached(c1, log[i], sha)
    {
      PrepareKeepsCached(c, pk, now, log[i], sha);
    }
    forall q, k | k in BucketOf(c1, q) && BucketOf(c1, q)[k] >= now
      ensures Logged(log, sha, q, k, BucketOf(c1, q)[k])
    {
      PrepareAddsNothing(c, pk, now, q, k);
    }
  }

  lemma LogGrows(log: seq<Entry>, e: Entry, sha: string -> string, pk: string, k: string, expiry: real)
    requires Logged(log, sha, pk, k, expiry)
    ensures Logged(log + [e], sha, pk, k, expiry)
  {
    var i :| LoggedAt(log, sha, pk, k, expiry, i);
    assert LoggedAt(log + [e], sha, pk, k, expiry, i);
  }

  /** A message that is not in the bucket is not live in the log. */
  lemma NewMessage(c: Cache, log: seq<Entry>, sha: string -> string, e: Entry, now: real)
    requires Coupled(c, log, sha, now) && sha(e.message) !in BucketOf(c, e.pubkey)
    ensures NoLiveRepeats(log + [e], now)
  {
    var more := log + [e];
    forall i, j | 0 <= i < j < |more| && BothLive(more[i], more[j], now)
      ensures more[i].message != more[j].message
    {
      assert more[i] == log[i] && Cached(c, log[i], sha);
      assert j < |log| ==> more[j] == log[j];
    }
  }

  lemma RecordKeepsCoupling(c: Cache, log: seq<Entry>, sha: string -> string, e: Entry, now: real)
    requires Injective(sha) && Coupled(c, log, sha, now)
    requires e.pubkey in c && |c[e.pubkey]| < MAX_PER_PUBKEY && sha(e.message) !in c[e.pubkey]
    ensures Coupled(c[e.pubkey := c[e.pubkey][sha(e.message) := e.expiry]], log + [e], sha, now)
  {
    var more := log + [e];
    var c' := c[e.pubkey := c[e.pubkey][sha(e.message) := e.expiry]];
    NewMessage(c, log, sha, e, now);
    forall i | 0 <= i < |more| && more[i].expiry >= now
      ensures Cached(c', more[i], sha)
    {
      if i < |log| { assert more[i] == log[i] && Cached(c, log[i], sha); }
    }
    forall q, k | k in BucketOf(c', q) && BucketOf(c', q)[k] >= now
      ensures Logged(more, sha, q, k, BucketOf(c', q)[k])
    {
      if q == e.pubkey && k == sha(e.message) {
        assert LoggedAt(more, sha, q, k, e.expiry, |log|);
      } else {
        assert k in BucketOf(c, q) && BucketOf(c, q)[k] == BucketOf(c', q)[k];
        LogGrows(log, e, sha, q, k, BucketOf(c, q)[k]);
      }
    }
    forall q ensures |BucketOf(c', q)| <= MAX_PER_PUBKEY {
      if q != e.pubkey { assert BucketOf(c', q) == BucketOf(c, q); }
    }
  }

  /** One request: same verdict from the cache and from the log, and still coupled. */
  lemma StepRefinesLog(c: Cache, log: seq<Entry>, sha: string -> string, clock: real,
                       pk: string, message: string, expiry: real, now: real)
    requires Injective(sha) && Coupled(c, log, sha, clock) && clock <= now
    ensures var (v, c') := Present(c, pk, sha(message), expiry, now);
            && v == LogVerdict(log, pk, message, now)
            && Coupled(c', Record(log, Entry(pk, message, expiry), v), sha, now)
  {
    PrepareKeepsLive(c, pk, now);
    PrepareKeepsCoupling(c, log, sha, clock, pk, now);
    SameVerdict(c, log, sha, clock, pk, message, now);
    var c1 := Prepare(c, pk, now);
    if VerdictOf(c1[pk], sha(message)) == Accepted {
      RecordKeepsCoupling(c1, log, sha, Entry(pk, message, expiry), now);
    }
  }

  // ----- every run

  datatype Presentation = Presentation(pubkey: string, message: string, expiry: real, now: real)

  predicate Clocked(clock: real, run: seq<Presentation>) {
    && (run != [] ==> clock <= run[0].now)
    && forall i :: 0 <= i < |run| - 1 ==> run[i].now <= run[i + 1].now
  }

  function CacheVerdicts(c: Cache, sha: string -> string, run: seq<Presentation>): seq<Verdict>
    decreases |run|
  {
    if run == [] then []
    else
      var (v, c') := Present(c, run[0].pubkey, sha(run[0].message), run[0].expiry, run[0].now);
      [v] + CacheVerdicts(c', sha, run[1..])
  }

  function CacheAfter(c: Cache, sha: string -> string, run: seq<Presentation>): Cache
    decreases |run|
  {
    if run == [] then c
    else CacheAfter(Present(c, run[0].pubkey, sha(run[0].message), run[0].expiry, run[0].now).1, sha, run[1..])
  }

  function LogVerdicts(log: seq<Entry>, run: seq<Presentation>): seq<Verdict>
    decreases |run|
  {
    if run == [] then []
    else
      var v := LogVerdict(log, run[0].pubkey, run[0].message, run[0].now);
      [v] + LogVerdicts(Record(log, Entry(run[0].pubkey, run[0].message, run[0].expiry), v), run[1..])
  }

  /** Pruning, sweeping and the cap never change an answer: every run gets the verdicts of the log. */
  lemma {:induction false} CacheRefinesLog(c: Cache, log: seq<Entry>, sha: string -> string, clock: real,
                                           run: seq<Presentation>)
    requires Injective(sha) && Coupled(c, log, sha, clock) && Clocked(clock, run)
    ensures CacheVerdicts(c, sha, run) == LogVerdicts(log, run)
    ensures forall pk :: |BucketOf(CacheAfter(c, sha, run), pk)| <= 200
    decreases |run|
  {
    if run != [] {
      var r := run[0];
      StepRefinesLog(c, log, sha, clock, r.pubkey, r.message, r.expiry, r.now);
      var (v, c') := Present(c, r.pubkey, sha(r.message), r.expiry, r.now);
      assert Clocked(r.now, run[1..]) by {
        assert forall i :: 0 <= i < |run[1..]| ==> run[1..][i] == run[i + 1];
      }
      CacheRefinesLog(c', Record(log, Entry(r.pubkey, r.message, r.expiry), v), sha, r.now, run[1..]);
    }
  }
}
