/**
 When the bootstrap repair runs (scripts/fleet-preroll-checks.py, `check_pair` and `check`): hashes are
 compared first, lab hosts are never written, and a lab refusal stops every write.
 */
module Preroll {
  /** A host's files and the hashes the generation expects of them. */
  datatype Pair = Pair(host: string, paths: seq<string>, expected: seq<string>)

  /** A command to a host; one that carries contents writes. */
  datatype Request = Request(host: string, paths: seq<string>, writes: bool)

  datatype Reply = Hashes(values: seq<string>) | Failed

  datatype Complaint = RemoteFailed(host: string) | Differs(host: string, path: string) | Unpaired

  predicate Matched(pair: Pair, reply: Reply) {
    reply == Hashes(pair.expected)
  }

  /** A reply of the wrong length is refused. */
  predicate Answered(pair: Pair, reply: Reply) {
    reply.Hashes? && |reply.values| == |pair.paths|
  }

  function Reading(pair: Pair): Request {
    Request(pair.host, pair.paths, false)
  }

  function Differences(pair: Pair, values: seq<string>, n: nat): seq<Complaint>
    requires n <= |pair.paths| == |pair.expected| == |values|
  {
    if n == 0 then []
    else
      Differences(pair, values, n - 1) +
      if values[n - 1] == pair.expected[n - 1] then [] else [Differs(pair.host, pair.paths[n - 1])]
  }

  lemma {:induction false} NoDifferences(pair: Pair, values: seq<string>, n: nat)
    requires n <= |pair.paths| == |pair.expected| == |values|
    ensures Differences(pair, values, n) == [] <==> values[..n] == pair.expected[..n]
    ensures forall k | 0 <= k < n && values[k] != pair.expected[k] ::
              Differs(pair.host, pair.paths[k]) in Differences(pair, values, n)
    ensures forall complaint <- Differences(pair, values, n) ::
              exists k | 0 <= k < n :: values[k] != pair.expected[k] && complaint == Differs(pair.host, pair.paths[k])
  {
    if n > 0 {
      NoDifferences(pair, values, n - 1);
      assert values[..n] == values[..n - 1] + [values[n - 1]];
      assert pair.expected[..n] == pair.expected[..n - 1] + [pair.expected[n - 1]];
    }
  }

  /** Every write since `base` repairs a pair of `pairs`, directly after reading it and finding it different. */
  ghost predicate WritesRepair(log: seq<Request>, base: nat, replies: nat -> Reply, pairs: seq<Pair>) {
    forall k | base <= k < |log| && log[k].writes ::
      k > base && exists pair <- pairs :: Repairs(log[k - 1], log[k], replies(k - 1), pair)
  }

  ghost predicate Repairs(read: Request, write: Request, reply: Reply, pair: Pair) {
    read == Reading(pair) && write == Reading(pair).(writes := true) && Answered(pair, reply) && !Matched(pair, reply)
  }

  /** The labs were each read once, in order, from `base`. */
  ghost predicate LabsRead(log: seq<Request>, base: nat, labs: seq<Pair>) {
    base + |labs| <= |log| && forall i | 0 <= i < |labs| :: log[base + i] == Reading(labs[i])
  }

  ghost predicate LabsMatched(replies: nat -> Reply, base: nat, labs: seq<Pair>) {
    forall i | 0 <= i < |labs| :: Matched(labs[i], replies(base + i))
  }

  /** Each consumer's last answer came at its place in `ends`. */
  ghost predicate LastAsked(log: seq<Request>, base: nat, consumers: seq<Pair>, ends: seq<nat>) {
    && |ends| == |consumers|
    && forall i | 0 <= i < |consumers| ::
         base <= ends[i] < |log| && log[ends[i]].host == consumers[i].host && log[ends[i]].paths == consumers[i].paths
  }

  class Fleet {
    var log: seq<Request>
    const replies: nat -> Reply

    constructor (replies: nat -> Reply)
      ensures log == [] && this.replies == replies
    {
      log, this.replies := [], replies;
    }

    method Ask(request: Request) returns (reply: Reply)
      modifies this
      ensures log == old(log) + [request] && reply == replies(|old(log)|)
    {
      reply := replies(|log|);
      log := log + [request];
    }

    /** Reads the pair and, when it may and it differs, repairs it; the last answer decides. */
    method CheckPair(pair: Pair, sync: bool) returns (complaints: seq<Complaint>)
      requires |pair.paths| == |pair.expected|
      modifies this
      ensures |log| > |old(log)| && old(log) <= log
      ensures complaints == [] <==> Matched(pair, replies(|log| - 1))
      ensures log == old(log) + [Reading(pair)] ||
              (sync && log == old(log) + [Reading(pair), Reading(pair).(writes := true)]
               && Answered(pair, replies(|old(log)|)) && !Matched(pair, replies(|old(log)|)))
      ensures sync && Answered(pair, replies(|old(log)|)) && !Matched(pair, replies(|old(log)|)) ==>
                |log| == |old(log)| + 2
    {
      var reply := Ask(Reading(pair));
      if Answered(pair, reply) && !Matched(pair, reply) && sync {
        reply := Ask(Reading(pair).(writes := true));
      }
      if !Answered(pair, reply) {
        return [RemoteFailed(pair.host)];
      }
      NoDifferences(pair, reply.values, |pair.paths|);
      assert reply.values[..|pair.paths|] == reply.values && pair.expected[..|pair.paths|] == pair.expected;
      complaints := Differences(pair, reply.values, |pair.paths|);
    }

    /** The lab hosts: one read each, never a write. */
    method CheckLabs(labs: seq<Pair>) returns (complaints: seq<Complaint>)
      requires forall pair <- labs :: |pair.paths| == |pair.expected|
      modifies this
      ensures |log| == |old(log)| + |labs| && old(log) <= log
      ensures LabsRead(log, |old(log)|, labs)
      ensures complaints == [] <==> LabsMatched(replies, |old(log)|, labs)
    {
      complaints := [];
      for i := 0 to |labs|
        invariant |log| == |old(log)| + i && old(log) <= log
        invariant forall j | 0 <= j < i :: log[|old(log)| + j] == Reading(labs[j])
        invariant complaints == [] <==> forall j | 0 <= j < i :: Matched(labs[j], replies(|old(log)| + j))
      {
        ghost var before := log;
        var found := CheckPair(labs[i], false);
        complaints := complaints + found;
      }
    }

    /** The consumers; `ends` is where each one's last answer is. */
    method CheckConsumers(consumers: seq<Pair>, sync: bool) returns (complaints: seq<Complaint>, ghost ends: seq<nat>)
      requires forall pair <- consumers :: |pair.paths| == |pair.expected|
      modifies this
      ensures |log| >= |old(log)| && old(log) <= log
      ensures LastAsked(log, |old(log)|, consumers, ends)
      ensures complaints == [] <==> forall i | 0 <= i < |consumers| :: Matched(consumers[i], replies(ends[i]))
      ensures WritesRepair(log, |old(log)|, replies, consumers)
      ensures !sync ==> forall k | |old(log)| <= k < |log| :: !log[k].writes
    {
      hide WritesRepair, Matched, Answered;
      complaints, ends := [], [];
      EmptyRepairs(log, replies, consumers);
      for i := 0 to |consumers|
        invariant |log| >= |old(log)| && old(log) <= log
        invariant LastAsked(log, |old(log)|, consumers[..i], ends)
        invariant complaints == [] <==> forall j | 0 <= j < i :: Matched(consumers[j], replies(ends[j]))
        invariant WritesRepair(log, |old(log)|, replies, consumers)
        invariant !sync ==> forall k | |old(log)| <= k < |log| :: !log[k].writes
      {
        ghost var before := log;
        var found := CheckPair(consumers[i], sync);
        complaints := complaints + found;
        ends := ends + [|log| - 1];
        assert consumers[..i + 1] == consumers[..i] + [consumers[i]];
        StillRepairs(before, log, |old(log)|, replies, consumers, consumers[i]);
      }
      assert consumers[..|consumers|] == consumers;
    }

    /**
     The whole check. A write needs permission, a paired manifest and every lab in order, and repairs a
     consumer just read and found different; no complaint means the last answer of every host matched.
     */
    method Check(paired: bool, labs: seq<Pair>, consumers: seq<Pair>, sync: bool)
      returns (complaints: seq<Complaint>, ghost ends: seq<nat>)
      requires forall pair <- labs :: |pair.paths| == |pair.expected|
      requires forall pair <- consumers :: |pair.paths| == |pair.expected|
      modifies this
      ensures old(log) <= log && LabsRead(log, |old(log)|, labs)
      ensures (exists k | |old(log)| <= k < |log| :: log[k].writes) ==>
                sync && paired && LabsMatched(replies, |old(log)|, labs)
      ensures WritesRepair(log, |old(log)| + |labs|, replies, consumers)
      ensures LastAsked(log, |old(log)| + |labs|, consumers, ends)
      ensures complaints == [] <==>
              && paired && LabsMatched(replies, |old(log)|, labs)
              && forall i | 0 <= i < |consumers| :: Matched(consumers[i], replies(ends[i]))
    {
      hide WritesRepair, Matched, LastAsked, LabsMatched;
      complaints := if paired then [] else [Unpaired];
      var found := CheckLabs(labs);
      complaints := complaints + found;
      ghost var base := log;
      var failures;
      failures, ends := CheckConsumers(consumers, sync && complaints == []);
      ReadsStay(base, log, |old(log)|, labs);
      complaints := complaints + failures;
    }
  }

  lemma ReadsStay(before: seq<Request>, log: seq<Request>, base: nat, labs: seq<Pair>)
    requires before <= log && |before| == base + |labs| && LabsRead(before, base, labs)
    ensures LabsRead(log, base, labs) && forall k | base <= k < base + |labs| :: !log[k].writes
  {
    forall k | base <= k < base + |labs|
      ensures log[k] == Reading(labs[k - base])
    {
      assert before[base + (k - base)] == Reading(labs[k - base]);
    }
  }

  lemma EmptyRepairs(log: seq<Request>, replies: nat -> Reply, pairs: seq<Pair>)
    ensures WritesRepair(log, |log|, replies, pairs)
  {
  }

  lemma StillRepairs(
    before: seq<Request>, log: seq<Request>, base: nat, replies: nat -> Reply, pairs: seq<Pair>, pair: Pair)
    requires base <= |before| && pair in pairs && WritesRepair(before, base, replies, pairs)
    requires log == before + [Reading(pair)] ||
             (log == before + [Reading(pair), Reading(pair).(writes := true)]
              && Answered(pair, replies(|before|)) && !Matched(pair, replies(|before|)))
    ensures WritesRepair(log, base, replies, pairs)
  {
    forall k | base <= k < |log| && log[k].writes
      ensures k > base && exists pair <- pairs :: Repairs(log[k - 1], log[k], replies(k - 1), pair)
    {
      if k < |before| {
        assert log[k] == before[k] && log[k - 1] == before[k - 1];
        assert exists pair <- pairs :: Repairs(before[k - 1], before[k], replies(k - 1), pair);
      } else {
        assert k == |before| + 1;
        assert Repairs(log[k - 1], log[k], replies(k - 1), pair);
      }
    }
  }
}
