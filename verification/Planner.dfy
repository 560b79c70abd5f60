/**
 The greedy planner of a compressed file: cut the source into lclusters, collate them
 into pclusters while the compressed frame still fits, and leave one index entry per
 lcluster. The codec is a parameter.
 */
module Planner {
  import opened Basics
  import opened Bits
  import opened CompactPack

  datatype Algo = Lz4 | Lzma | Deflate

  /** One physical cluster as planned. `rawCompressed` is its unpadded payload. */
  datatype PclusterPlan = PclusterPlan(
    blockBytes: seq<byte>, ctype: nat, blockCount: nat, rawCompressed: seq<byte>,
    head: nat, nLclusters: nat)

  /** One index entry: offset for a head, distance for a NONHEAD. */
  datatype IndexEntry = IndexEntry(ctype: nat, ofsOrDelta0: nat, pclusterIdx: nat)

  datatype OpenPcluster = OpenPcluster(head: nat, nLclusters: nat, srcBuf: seq<byte>, compressed: seq<byte>)

  datatype Plan = Plan(pclusters: seq<PclusterPlan>, entries: seq<IndexEntry>, totalBlocks: nat)

  /** What a planner run is given besides the source. */
  datatype Config = Config(algo: Algo, lclusterSize: nat, blockSize: nat, targetBlocks: nat,
                           compress: seq<byte> -> seq<byte>)
  {
    function Budget(): nat {
      blockSize * targetBlocks
    }
    ghost predicate Valid() {
      lclusterSize > 0 && blockSize > 0 && targetBlocks > 0
    }
    /** The frame shrinks its source and fits the block budget. */
    predicate Fits(source: seq<byte>) {
      |compress(source)| <= Budget() && |compress(source)| < |source|
    }
  }

  /** The source bytes of lclusters `head .. head + n`, cut off at the end of the file. */
  function Source(src: seq<byte>, lcs: nat, head: nat, n: nat): seq<byte> {
    src[Min(head * lcs, |src|)..Min((head + n) * lcs, |src|)]
  }

  function NLclusters(src: seq<byte>, lcs: nat): nat {
    if lcs == 0 then 0 else DivCeil(|src|, lcs)
  }

  /** `pad_pcluster_block`. */
  function PadPclusterBlock(payload: seq<byte>, total: nat, ctype: nat, algo: Algo): Result<seq<byte>> {
    if |payload| > total then Err
    else if ctype == HEAD1 && algo == Lz4 then Ok(Zeros(total - |payload|) + payload)
    else Ok(payload + Zeros(total - |payload|))
  }

  // ----- What a plan must be

  /** A finished pcluster: its payload comes from its own lclusters and fits the budget. */
  ghost predicate GoodPcluster(c: Config, src: seq<byte>, p: PclusterPlan) {
    var source := Source(src, c.lclusterSize, p.head, p.nLclusters);
    && p.nLclusters >= 1
    && p.blockCount == c.targetBlocks
    && PadPclusterBlock(p.rawCompressed, c.Budget(), p.ctype, c.algo) == Ok(p.blockBytes)
    && (p.ctype == HEAD1 || p.ctype == PLAIN)
    && (p.ctype == HEAD1 ==> c.Fits(source) && p.rawCompressed == c.compress(source))
    && (p.ctype == PLAIN ==> p.nLclusters == 1 && p.rawCompressed == source && !c.Fits(source))
  }

  /** Where pcluster `k` must start: right behind the one before it. */
  function EndOf(pclusters: seq<PclusterPlan>): nat {
    if pclusters == [] then 0
    else pclusters[|pclusters| - 1].head + pclusters[|pclusters| - 1].nLclusters
  }

  /** The pclusters follow each other without a gap, from lcluster 0 on. */
  ghost predicate Contiguous(pclusters: seq<PclusterPlan>) {
    forall k :: 0 <= k < |pclusters| ==> pclusters[k].head == EndOf(pclusters[..k])
  }

  /** The entry `d` lclusters into pcluster `k`. */
  function EntryFor(d: nat, ctype: nat, k: nat): IndexEntry {
    if d == 0 then IndexEntry(ctype, 0, k) else IndexEntry(NONHEAD, d, k)
  }

  /** The entries of the lclusters a pcluster covers name it, and count back to its head. */
  ghost predicate EntriesOf(entries: seq<IndexEntry>, head: nat, n: nat, ctype: nat, k: nat) {
    && head + n <= |entries|
    && n <= 0x1_0000
    && forall i :: head <= i < head + n ==> entries[i] == EntryFor(i - head, ctype, k)
  }

  /** Every step that made the pcluster longer left it fitting. */
  ghost predicate GrewFitting(c: Config, src: seq<byte>, head: nat, n: nat) {
    forall m :: 1 <= m <= n ==> c.Fits(Source(src, c.lclusterSize, head, m))
  }

  /** The collator took as much as it could: the pcluster does not fit with one more lcluster. */
  ghost predicate Maximal(c: Config, src: seq<byte>, p: PclusterPlan) {
    && (p.ctype == HEAD1 ==> GrewFitting(c, src, p.head, p.nLclusters))
    && (p.ctype == HEAD1 && p.head + p.nLclusters < NLclusters(src, c.lclusterSize)
        ==> !c.Fits(Source(src, c.lclusterSize, p.head, p.nLclusters + 1)))
  }

  /** A complete plan for `src`. */
  ghost predicate WfPlan(c: Config, src: seq<byte>, plan: Plan) {
    && Contiguous(plan.pclusters)
    && EndOf(plan.pclusters) == |plan.entries| == NLclusters(src, c.lclusterSize)
    && (forall k :: 0 <= k < |plan.pclusters| ==>
          && GoodPcluster(c, src, plan.pclusters[k])
          && Maximal(c, src, plan.pclusters[k])
          && EntriesOf(plan.entries, plan.pclusters[k].head, plan.pclusters[k].nLclusters,
                       plan.pclusters[k].ctype, k))
    && plan.totalBlocks == |plan.pclusters| * c.targetBlocks
  }

  // ----- The planner

  /** Why a plan can be refused: a cluster too big to store, too long to index, or too many. */
  ghost predicate PlanCanFail(c: Config, src: seq<byte>) {
    var n := NLclusters(src, c.lclusterSize);
    || (exists i :: 0 <= i < n && !c.Fits(Source(src, c.lclusterSize, i, 1))
                    && |Source(src, c.lclusterSize, i, 1)| > c.Budget())
    || (exists i, m :: 0 <= i && m > 0x1_0000 && i + m <= n && c.Fits(Source(src, c.lclusterSize, i, m)))
    || n * c.targetBlocks > U32_MAX
  }

  /** The finished part of a plan in progress. */
  ghost predicate Finished(c: Config, src: seq<byte>, plan: Plan) {
    && Contiguous(plan.pclusters)
    && |plan.pclusters| <= EndOf(plan.pclusters) <= |plan.entries|
    && plan.totalBlocks == |plan.pclusters| * c.targetBlocks
    && forall k :: 0 <= k < |plan.pclusters| ==>
         && GoodPcluster(c, src, plan.pclusters[k])
         && Maximal(c, src, plan.pclusters[k])
         && EntriesOf(plan.entries, plan.pclusters[k].head, plan.pclusters[k].nLclusters,
                      plan.pclusters[k].ctype, k)
  }

  /** The pcluster still being collated. */
  ghost predicate Growing(c: Config, src: seq<byte>, plan: Plan, o: OpenPcluster) {
    && o.head == EndOf(plan.pclusters)
    && o.nLclusters >= 1 && o.head + o.nLclusters == |plan.entries|
    && o.srcBuf == Source(src, c.lclusterSize, o.head, o.nLclusters)
    && o.compressed == c.compress(o.srcBuf)
    && c.Fits(o.srcBuf)
    && GrewFitting(c, src, o.head, o.nLclusters)
    && EntriesOf(plan.entries, o.head, o.nLclusters, HEAD1, |plan.pclusters|)
  }

  /** A plan after `i` lclusters. */
  ghost predicate Progress(c: Config, src: seq<byte>, plan: Plan, open: Option<OpenPcluster>, i: nat) {
    && Finished(c, src, plan)
    && |plan.entries| == i
    && match open
       case Some(o) => Growing(c, src, plan, o)
       case None => EndOf(plan.pclusters) == i
  }

  function ConfigOf(algo: Algo, lclusterbits: nat, bs: nat, targetPclusterBlocks: nat,
                    compress: seq<byte> -> seq<byte>): Config
  {
    Config(algo, bs * Pow2(lclusterbits), bs, Max(targetPclusterBlocks, 1), compress)
  }

  /** `plan_compressed_pclusters_with_cfg`. */
  method PlanCompressedPclusters(src: seq<byte>, algo: Algo, lclusterbits: nat, bs: nat,
                                 targetPclusterBlocks: nat, compress: seq<byte> -> seq<byte>)
    returns (r: Result<Plan>)
    requires bs > 0
    ensures r.Ok? ==> lclusterbits <= 4 && WfPlan(ConfigOf(algo, lclusterbits, bs, targetPclusterBlocks, compress), src, r.value)
    ensures r.Err? ==>
              || lclusterbits > 4
              || PlanCanFail(ConfigOf(algo, lclusterbits, bs, targetPclusterBlocks, compress), src)
  {
    if lclusterbits > 4 {
      return Err;
    }
    MulMono(1, Pow2(lclusterbits), bs);
    r := Collate(ConfigOf(algo, lclusterbits, bs, targetPclusterBlocks, compress), src);
  }

  /** The collation loop. */
  method Collate(c: Config, src: seq<byte>) returns (r: Result<Plan>)
    requires c.Valid()
    ensures r.Ok? ==> WfPlan(c, src, r.value)
    ensures r.Err? ==> PlanCanFail(c, src)
  {
    hide *;
    var lcs := c.lclusterSize;
    var n := NLclusters(src, lcs);
    var plan := Plan([], [], 0);
    var open: Option<OpenPcluster> := None;
    NothingPlanned(c, src);
    for i := 0 to n
      invariant Progress(c, src, plan, open, i)
    {
      var chunk := Source(src, lcs, i, 1);
      var extended: Option<OpenPcluster> := None;
      if open.Some? {
        var cur := open.value;
        OpenFacts(c, src, plan, cur, i);
        var trialSrc := cur.srcBuf + chunk;
        if c.Fits(trialSrc) {
          if i - cur.head > U16_MAX {
            TooLong(c, src, cur.head, i - cur.head + 1);
            return Err;
          }
          extended := Some(OpenPcluster(cur.head, cur.nLclusters + 1, trialSrc, c.compress(trialSrc)));
        }
      }
      if extended.Some? {
        var e := IndexEntry(NONHEAD, i - extended.value.head, |plan.pclusters|);
        GrowStep(c, src, plan, open.value, e, extended.value, i);
        plan := plan.(entries := plan.entries + [e]);
        open := extended;
      } else {
        if open.Some? {
          if plan.totalBlocks + c.targetBlocks > U32_MAX {
            TooManyBlocks(c, src, plan, open, i);
            return Err;
          }
          plan := Finalize(c, src, plan, open.value, i);
          open := None;
        }
        var started := StartFresh(c, src, plan, i);
        if started.Err? {
          return Err;
        }
        plan, open := started.value.0, started.value.1;
      }
    }
    if open.Some? {
      if plan.totalBlocks + c.targetBlocks > U32_MAX {
        TooManyBlocks(c, src, plan, open, n);
        return Err;
      }
      plan := Finalize(c, src, plan, open.value, n);
    }
    PlanDone(c, src, plan);
    return Ok(plan);
  }

  /** A fresh pcluster for lcluster `i` alone: HEAD1 and open, or PLAIN and done. */
  method StartFresh(c: Config, src: seq<byte>, plan: Plan, i: nat)
    returns (r: Result<(Plan, Option<OpenPcluster>)>)
    requires c.Valid() && Progress(c, src, plan, None, i) && i < NLclusters(src, c.lclusterSize)
    ensures r.Ok? ==> Progress(c, src, r.value.0, r.value.1, i + 1)
    ensures r.Err? ==> PlanCanFail(c, src)
  {
    hide PlanCanFail, Finished, Growing, Progress, Source, Config.Fits, NLclusters, PadPclusterBlock, WfPlan;
    var chunk := Source(src, c.lclusterSize, i, 1);
    var ctype := if c.Fits(chunk) then HEAD1 else PLAIN;
    var e := IndexEntry(ctype, 0, |plan.pclusters|);
    if ctype == PLAIN {
      var block := PadPclusterBlock(chunk, c.Budget(), PLAIN, c.algo);
      if block.Err? {
        TooBig(c, src, i);
        return Err;
      }
      if plan.totalBlocks + c.targetBlocks > U32_MAX {
        TooManyBlocks(c, src, plan, None, i);
        return Err;
      }
      var p := PclusterPlan(block.value, PLAIN, c.targetBlocks, chunk, i, 1);
      PlainStep(c, src, plan, e, p, i);
      return Ok((Plan(plan.pclusters + [p], plan.entries + [e], plan.totalBlocks + c.targetBlocks), None));
    } else {
      var open := OpenPcluster(i, 1, chunk, c.compress(chunk));
      HeadStep(c, src, plan, e, open, i);
      return Ok((plan.(entries := plan.entries + [e]), Some(open)));
    }
  }

  /** `OpenPcluster::finalize`, and the push that follows it. */
  method Finalize(c: Config, src: seq<byte>, plan: Plan, o: OpenPcluster, ghost i: nat) returns (done: Plan)
    requires c.Valid() && Progress(c, src, plan, Some(o), i)
    requires i < NLclusters(src, c.lclusterSize)
             ==> !c.Fits(o.srcBuf + Source(src, c.lclusterSize, i, 1))
    ensures Progress(c, src, done, None, i)
  {
    hide Maximal, NLclusters, Source, GrewFitting, Contiguous;
    var block := PadPclusterBlock(o.compressed, c.Budget(), HEAD1, c.algo);
    var p := PclusterPlan(block.value, HEAD1, c.targetBlocks, o.compressed, o.head, o.nLclusters);
    MaximalNow(c, src, plan, o, p, i);
    AppendPcluster(c, src, plan, [], p);
    assert plan.entries + [] == plan.entries;
    return Plan(plan.pclusters + [p], plan.entries, plan.totalBlocks + c.targetBlocks);
  }

  // ----- One lemma per step of the loop

  lemma NothingPlanned(c: Config, src: seq<byte>)
    ensures Progress(c, src, Plan([], [], 0), None, 0)
  {
  }

  lemma ChunkBounds(src: seq<byte>, lcs: nat, i: nat)
    requires i < NLclusters(src, lcs)
    ensures i * lcs < |src| && (i + 1) * lcs == i * lcs + lcs && lcs > 0
  {
    DivCeilBounds(|src|, lcs);
    MulMono(i, NLclusters(src, lcs) - 1, lcs);
    MulStep(i, lcs);
  }

  lemma SourceGrows(src: seq<byte>, lcs: nat, head: nat, n: nat)
    requires head + n < NLclusters(src, lcs)
    ensures Source(src, lcs, head, n) + Source(src, lcs, head + n, 1) == Source(src, lcs, head, n + 1)
  {
    ChunkBounds(src, lcs, head + n);
    MulMono(head, head + n, lcs);
  }

  lemma OpenFacts(c: Config, src: seq<byte>, plan: Plan, o: OpenPcluster, i: nat)
    requires Progress(c, src, plan, Some(o), i) && i < NLclusters(src, c.lclusterSize)
    ensures o.head + o.nLclusters == i
    ensures o.srcBuf + Source(src, c.lclusterSize, i, 1)
            == Source(src, c.lclusterSize, o.head, o.nLclusters + 1)
  {
    SourceGrows(src, c.lclusterSize, o.head, o.nLclusters);
  }

  lemma TooLong(c: Config, src: seq<byte>, head: nat, m: nat)
    requires m > U16_MAX + 1 && head + m <= NLclusters(src, c.lclusterSize)
    requires c.Fits(Source(src, c.lclusterSize, head, m))
    ensures PlanCanFail(c, src)
  {
  }

  lemma TooBig(c: Config, src: seq<byte>, i: nat)
    requires i < NLclusters(src, c.lclusterSize) && !c.Fits(Source(src, c.lclusterSize, i, 1))
    requires PadPclusterBlock(Source(src, c.lclusterSize, i, 1), c.Budget(), PLAIN, c.algo).Err?
    ensures PlanCanFail(c, src)
  {
  }

  lemma TooManyBlocks(c: Config, src: seq<byte>, plan: Plan, open: Option<OpenPcluster>, i: nat)
    requires Progress(c, src, plan, open, i) && i <= NLclusters(src, c.lclusterSize)
    requires open.Some? || i < NLclusters(src, c.lclusterSize)
    requires plan.totalBlocks + c.targetBlocks > U32_MAX
    ensures PlanCanFail(c, src)
  {
    hide NLclusters;
    MulStep(|plan.pclusters|, c.targetBlocks);
    MulMono(|plan.pclusters| + 1, NLclusters(src, c.lclusterSize), c.targetBlocks);
  }

  /** Appending entries disturbs no finished pcluster. */
  lemma KeepEntries(c: Config, src: seq<byte>, plan: Plan, e: IndexEntry)
    requires Finished(c, src, plan)
    ensures Finished(c, src, plan.(entries := plan.entries + [e]))
  {
    hide GoodPcluster, Maximal, Contiguous, EndOf;
  }

  lemma GrowStep(c: Config, src: seq<byte>, plan: Plan, o: OpenPcluster, e: IndexEntry, grown: OpenPcluster, i: nat)
    requires Progress(c, src, plan, Some(o), i) && i < NLclusters(src, c.lclusterSize)
    requires i - o.head <= U16_MAX && e == IndexEntry(NONHEAD, i - o.head, |plan.pclusters|)
    requires grown.head == o.head && grown.nLclusters == o.nLclusters + 1
    requires grown.srcBuf == o.srcBuf + Source(src, c.lclusterSize, i, 1)
    requires grown.compressed == c.compress(grown.srcBuf) && c.Fits(grown.srcBuf)
    ensures Progress(c, src, plan.(entries := plan.entries + [e]), Some(grown), i + 1)
  {
    hide Source, NLclusters, Finished, EndOf, Config.Fits;
    KeepEntries(c, src, plan, e);
    OpenFacts(c, src, plan, o, i);
  }

  lemma HeadStep(c: Config, src: seq<byte>, plan: Plan, e: IndexEntry, o: OpenPcluster, i: nat)
    requires Progress(c, src, plan, None, i)
    requires c.Fits(Source(src, c.lclusterSize, i, 1)) && e == IndexEntry(HEAD1, 0, |plan.pclusters|)
    requires o.head == i && o.nLclusters == 1 && o.srcBuf == Source(src, c.lclusterSize, i, 1)
    requires o.compressed == c.compress(o.srcBuf)
    ensures Progress(c, src, plan.(entries := plan.entries + [e]), Some(o), i + 1)
  {
    hide Source, NLclusters, Finished, EndOf, Config.Fits;
    KeepEntries(c, src, plan, e);
  }

  lemma PlainStep(c: Config, src: seq<byte>, plan: Plan, e: IndexEntry, p: PclusterPlan, i: nat)
    requires Progress(c, src, plan, None, i)
    requires !c.Fits(Source(src, c.lclusterSize, i, 1)) && e == IndexEntry(PLAIN, 0, |plan.pclusters|)
    requires p.head == i && p.nLclusters == 1 && p.ctype == PLAIN && p.blockCount == c.targetBlocks
    requires p.rawCompressed == Source(src, c.lclusterSize, i, 1)
    requires PadPclusterBlock(p.rawCompressed, c.Budget(), PLAIN, c.algo) == Ok(p.blockBytes)
    ensures Progress(c, src, Plan(plan.pclusters + [p], plan.entries + [e], plan.totalBlocks + c.targetBlocks), None, i + 1)
  {
    hide Source, NLclusters, Finished, Config.Fits;
    AppendPcluster(c, src, plan, [e], p);
  }

  lemma MaximalNow(c: Config, src: seq<byte>, plan: Plan, o: OpenPcluster, p: PclusterPlan, i: nat)
    requires Progress(c, src, plan, Some(o), i)
    requires i < NLclusters(src, c.lclusterSize)
             ==> !c.Fits(o.srcBuf + Source(src, c.lclusterSize, i, 1))
    requires p.head == o.head && p.nLclusters == o.nLclusters
    ensures Maximal(c, src, p)
  {
    hide Source, NLclusters, Finished, Config.Fits;
    if i < NLclusters(src, c.lclusterSize) {
      OpenFacts(c, src, plan, o, i);
    }
  }

  lemma AppendPcluster(c: Config, src: seq<byte>, plan: Plan, es: seq<IndexEntry>, p: PclusterPlan)
    requires Finished(c, src, plan) && |es| <= 1
    requires p.head == EndOf(plan.pclusters) && p.head + p.nLclusters == |plan.entries + es|
    requires GoodPcluster(c, src, p) && Maximal(c, src, p)
    requires EntriesOf(plan.entries + es, p.head, p.nLclusters, p.ctype, |plan.pclusters|)
    ensures var done := Plan(plan.pclusters + [p], plan.entries + es, plan.totalBlocks + c.targetBlocks);
            Finished(c, src, done) && EndOf(done.pclusters) == |done.entries|
  {
    hide Maximal, Config.Fits, Source, PadPclusterBlock, Contiguous, GoodPcluster, EntriesOf;
    var done := Plan(plan.pclusters + [p], plan.entries + es, plan.totalBlocks + c.targetBlocks);
    AtLeastOne(c, src, p);
    ContiguousStep(plan.pclusters, p);
    MulStep(|plan.pclusters|, c.targetBlocks);
    forall k | 0 <= k < |done.pclusters|
      ensures GoodPcluster(c, src, done.pclusters[k]) && Maximal(c, src, done.pclusters[k])
      ensures EntriesOf(done.entries, done.pclusters[k].head, done.pclusters[k].nLclusters, done.pclusters[k].ctype, k)
    {
      if k < |plan.pclusters| {
        var q := plan.pclusters[k];
        EntriesKept(plan.entries, es, q.head, q.nLclusters, q.ctype, k);
      }
    }
  }

  lemma AtLeastOne(c: Config, src: seq<byte>, p: PclusterPlan)
    requires GoodPcluster(c, src, p)
    ensures p.nLclusters >= 1
  {
  }

  lemma EntriesKept(entries: seq<IndexEntry>, es: seq<IndexEntry>, head: nat, n: nat, ctype: nat, k: nat)
    requires EntriesOf(entries, head, n, ctype, k)
    ensures EntriesOf(entries + es, head, n, ctype, k)
  {
  }

  lemma ContiguousStep(ps: seq<PclusterPlan>, p: PclusterPlan)
    requires Contiguous(ps) && p.head == EndOf(ps)
    ensures Contiguous(ps + [p])
  {
    var qs := ps + [p];
    forall k | 0 <= k < |qs|
      ensures qs[k].head == EndOf(qs[..k])
    {
      if k < |ps| {
        assert qs[..k] == ps[..k];
      } else {
        assert qs[..k] == ps;
      }
    }
  }

  lemma PlanDone(c: Config, src: seq<byte>, plan: Plan)
    requires c.Valid() && Progress(c, src, plan, None, NLclusters(src, c.lclusterSize))
    ensures WfPlan(c, src, plan)
  {
    hide GoodPcluster, Maximal, Contiguous, NLclusters, EntriesOf;
  }

  // ----- What a finished plan adds up to

  function AllSources(c: Config, src: seq<byte>, ps: seq<PclusterPlan>): seq<byte> {
    if ps == [] then []
    else
      var last := ps[|ps| - 1];
      AllSources(c, src, ps[..|ps| - 1]) + Source(src, c.lclusterSize, last.head, last.nLclusters)
  }

  lemma ContiguousPrefix(ps: seq<PclusterPlan>, n: nat)
    requires Contiguous(ps) && n <= |ps|
    ensures Contiguous(ps[..n])
  {
    forall k | 0 <= k < n
      ensures ps[..n][k].head == EndOf(ps[..n][..k])
    {
      assert ps[..n][..k] == ps[..k];
    }
  }

  lemma LastHead(ps: seq<PclusterPlan>)
    requires Contiguous(ps) && ps != []
    ensures ps[|ps| - 1].head == EndOf(ps[..|ps| - 1])
  {
  }

  lemma {:induction false} SourcesSoFar(c: Config, src: seq<byte>, ps: seq<PclusterPlan>)
    requires Contiguous(ps)
    ensures AllSources(c, src, ps) == src[..Min(EndOf(ps) * c.lclusterSize, |src|)]
    decreases |ps|
  {
    hide Contiguous, GoodPcluster, Maximal;
    if ps != [] {
      LastHead(ps);
      var front, last := ps[..|ps| - 1], ps[|ps| - 1];
      ContiguousPrefix(ps, |ps| - 1);
      SourcesSoFar(c, src, front);
      MulMono(last.head, last.head + last.nLclusters, c.lclusterSize);
      var a, b := Min(last.head * c.lclusterSize, |src|), Min(EndOf(ps) * c.lclusterSize, |src|);
      assert src[..a] + src[a..b] == src[..b];
    }
  }

  /** Nothing is lost and nothing is repeated: the pclusters' sources are the file. */
  lemma SourcesAreTheFile(c: Config, src: seq<byte>, plan: Plan)
    requires c.Valid() && WfPlan(c, src, plan)
    ensures AllSources(c, src, plan.pclusters) == src
  {
    SourcesSoFar(c, src, plan.pclusters);
    DivCeilBounds(|src|, c.lclusterSize);
  }

  /** Greedy choices leave no freedom: where a pcluster starts decides where it ends. */
  lemma SameLength(c: Config, src: seq<byte>, p: PclusterPlan, q: PclusterPlan)
    requires GoodPcluster(c, src, p) && Maximal(c, src, p)
    requires GoodPcluster(c, src, q) && Maximal(c, src, q)
    requires p.head == q.head
    requires p.head + p.nLclusters <= NLclusters(src, c.lclusterSize)
    requires q.head + q.nLclusters <= NLclusters(src, c.lclusterSize)
    ensures p == q
  {
    hide Source, PadPclusterBlock, Config.Fits, NLclusters;
    var m := Min(p.nLclusters, q.nLclusters);
    GrewTo(c, src, p, m + 1);
    GrewTo(c, src, q, m + 1);
    GrewTo(c, src, p, 1);
    GrewTo(c, src, q, 1);
  }

  lemma GrewTo(c: Config, src: seq<byte>, p: PclusterPlan, m: nat)
    requires GoodPcluster(c, src, p) && Maximal(c, src, p)
    ensures p.ctype == HEAD1 && 1 <= m <= p.nLclusters ==> c.Fits(Source(src, c.lclusterSize, p.head, m))
  {
  }

  /** The planner has no choice at all: a file has at most one plan. */
  lemma {:induction false} SamePrefix(c: Config, src: seq<byte>, a: Plan, b: Plan, n: nat)
    requires c.Valid() && WfPlan(c, src, a) && WfPlan(c, src, b)
    requires n <= |a.pclusters| && n <= |b.pclusters|
    ensures a.pclusters[..n] == b.pclusters[..n]
    decreases n
  {
    hide GoodPcluster, Maximal, EntriesOf, WfPlan, NLclusters;
    if n > 0 {
      SamePrefix(c, src, a, b, n - 1);
      assert a.pclusters[..n] == a.pclusters[..n - 1] + [a.pclusters[n - 1]];
      assert b.pclusters[..n] == b.pclusters[..n - 1] + [b.pclusters[n - 1]];
      HeadWithin(c, src, a, n - 1);
      HeadWithin(c, src, b, n - 1);
      SameLength(c, src, a.pclusters[n - 1], b.pclusters[n - 1]);
    }
  }

  lemma HeadWithin(c: Config, src: seq<byte>, a: Plan, k: nat)
    requires WfPlan(c, src, a) && k < |a.pclusters|
    ensures a.pclusters[k].head + a.pclusters[k].nLclusters <= NLclusters(src, c.lclusterSize)
    ensures a.pclusters[k].head == EndOf(a.pclusters[..k])
    ensures GoodPcluster(c, src, a.pclusters[k]) && Maximal(c, src, a.pclusters[k])
  {
    assert EntriesOf(a.entries, a.pclusters[k].head, a.pclusters[k].nLclusters, a.pclusters[k].ctype, k);
  }

  lemma PlanIsUnique(c: Config, src: seq<byte>, a: Plan, b: Plan)
    requires c.Valid() && WfPlan(c, src, a) && WfPlan(c, src, b)
    ensures a == b
  {
    hide GoodPcluster, Maximal, NLclusters;
    var n := Min(|a.pclusters|, |b.pclusters|);
    SamePrefix(c, src, a, b, n);
    SameCount(c, src, a, b, n);
    SameCount(c, src, b, a, n);
    assert a.pclusters[..n] == a.pclusters && b.pclusters[..n] == b.pclusters;
    forall i | 0 <= i < |a.entries|
      ensures a.entries[i] == b.entries[i]
    {
      var k := OwnerOf(c, src, a, i);
      assert EntriesOf(b.entries, b.pclusters[k].head, b.pclusters[k].nLclusters, b.pclusters[k].ctype, k);
    }
  }

  lemma SameCount(c: Config, src: seq<byte>, a: Plan, b: Plan, n: nat)
    requires c.Valid() && WfPlan(c, src, a) && WfPlan(c, src, b)
    requires n == |a.pclusters| <= |b.pclusters| || n == |b.pclusters| <= |a.pclusters|
    requires a.pclusters[..n] == b.pclusters[..n]
    ensures |a.pclusters| <= n
  {
    hide Maximal, NLclusters, EntriesOf;
    if n < |a.pclusters| {
      assert b.pclusters[..n] == b.pclusters;
      AtLeastOne(c, src, a.pclusters[n]);
      HeadWithin(c, src, a, n);
    }
  }

  /** The pcluster that covers lcluster `i`. */
  lemma OwnerOf(c: Config, src: seq<byte>, plan: Plan, i: nat) returns (k: nat)
    requires WfPlan(c, src, plan) && i < |plan.entries|
    ensures k < |plan.pclusters|
    ensures var p := plan.pclusters[k];
            p.head <= i < p.head + p.nLclusters && plan.entries[i] == EntryFor(i - p.head, p.ctype, k)
  {
    hide GoodPcluster, Maximal, NLclusters;
    k := |plan.pclusters|;
    while EndOf(plan.pclusters[..k]) > i
      invariant k <= |plan.pclusters|
      invariant k < |plan.pclusters| ==> i < plan.pclusters[k].head + plan.pclusters[k].nLclusters
      invariant k == |plan.pclusters| ==> plan.pclusters[..k] == plan.pclusters
      decreases k
    {
      k := k - 1;
    }
    assert EntriesOf(plan.entries, plan.pclusters[k].head, plan.pclusters[k].nLclusters, plan.pclusters[k].ctype, k);
  }
}
