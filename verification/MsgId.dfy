/** The lock-free message-id allocator: any number of threads, each in a loop that loads the shared
  word and tries to replace it by its successor with one compare-and-swap. */
module MsgId {
  import opened Bytes

  function Successor(x: U32): U32 {
    if x + 1 == WORD then 0 else x + 1
  }

  /** A thread is outside the loop, or has loaded `oldId` and is about to swap. `since` is the number of
    swaps that others had made when it loaded. */
  datatype Thread = Idle | Loaded(oldId: U32, since: nat)

  /** `ids` are the ids given out and `owners` the threads that got them, oldest first; `fails[t]`
    counts the swaps of thread `t` that failed. */
  datatype State = State(word: U32, threads: seq<Thread>, ids: seq<U32>, owners: seq<nat>, fails: seq<nat>)

  /** A step is a load or a swap of one thread. */
  datatype Event = Load(t: nat) | Swap(t: nat)

  function Init(n: nat): State {
    State(0, seq(n, _ => Idle), [], [], seq(n, _ => 0))
  }

  predicate Enabled(s: State, e: Event) {
    && e.t < |s.threads| == |s.fails|
    && (e.Load? <==> s.threads[e.t].Idle?)
  }

  /** The swaps made by threads other than `t`. */
  function ByOthers(owners: seq<nat>, t: nat): nat {
    if owners == [] then 0
    else ByOthers(owners[..|owners| - 1], t) + if owners[|owners| - 1] == t then 0 else 1
  }

  function Step(s: State, e: Event): State
    requires Enabled(s, e)
  {
    var t := e.t;
    match e
    case Load(_) => s.(threads := s.threads[t := Loaded(s.word, ByOthers(s.owners, t))])
    case Swap(_) =>
      var oldId := s.threads[t].oldId;
      var next := s.(threads := s.threads[t := Idle]);
      if s.word == oldId then
        next.(word := Successor(oldId), ids := s.ids + [Successor(oldId)], owners := s.owners + [t])
      else
        next.(fails := s.fails[t := s.fails[t] + 1])
  }

  ghost predicate IsRun(s: State, events: seq<Event>)
    decreases |events|
  {
    events != [] ==> Enabled(s, events[0]) && IsRun(Step(s, events[0]), events[1..])
  }

  function Run(s: State, events: seq<Event>): State
    requires IsRun(s, events)
    decreases |events|
  {
    if events == [] then s else Run(Step(s, events[0]), events[1..])
  }

  // ---- Invariant ----

  /** The word and the ids count the swaps modulo 2^32. A thread that loaded a value the word no longer
    has was overtaken: some other thread has swapped since. */
  ghost predicate Inv(s: State) {
    && |s.owners| == |s.ids| && |s.fails| == |s.threads|
    && s.word == |s.ids| % WORD
    && (forall k :: 0 <= k < |s.ids| ==> s.ids[k] == (k + 1) % WORD)
    && forall t :: 0 <= t < |s.threads| ==> ThreadInv(s, t)
  }

  ghost predicate ThreadInv(s: State, t: nat)
    requires t < |s.threads| == |s.fails|
  {
    match s.threads[t]
    case Idle => s.fails[t] <= ByOthers(s.owners, t)
    case Loaded(oldId, since) =>
      && s.fails[t] <= since <= ByOthers(s.owners, t)
      && (s.word != oldId ==> since < ByOthers(s.owners, t))
  }

  lemma SuccessorCounts(n: nat)
    ensures Successor(n % WORD) == (n + 1) % WORD
  {
  }

  lemma SwapKeepsInv(s: State, t: nat)
    requires Inv(s) && Enabled(s, Swap(t))
    ensures Inv(Step(s, Swap(t)))
  {
    var s' := Step(s, Swap(t));
    SuccessorCounts(|s.ids|);
    assert s.word == s.threads[t].oldId ==> s'.owners[..|s.owners|] == s.owners;
    forall u | 0 <= u < |s.threads| ensures ThreadInv(s', u) {
      assert ThreadInv(s, u);
    }
  }

  lemma StepKeepsInv(s: State, e: Event)
    requires Inv(s) && Enabled(s, e)
    ensures Inv(Step(s, e))
  {
    match e
    case Load(t) =>
      forall u | 0 <= u < |s.threads| ensures ThreadInv(Step(s, e), u) {
        assert ThreadInv(s, u);
      }
    case Swap(t) => SwapKeepsInv(s, t);
  }

  lemma {:induction false} RunKeepsInv(s: State, events: seq<Event>)
    requires Inv(s) && IsRun(s, events)
    ensures Inv(Run(s, events))
    decreases |events|
  {
    if events == [] {
    } else {
      StepKeepsInv(s, events[0]);
      RunKeepsInv(Step(s, events[0]), events[1..]);
    }
  }

  // ---- Every interleaving ----

  /** The k-th successful swap, counting from 1, returns k modulo 2^32, whatever the interleaving. */
  lemma KthIdIsK(n: nat, events: seq<Event>)
    requires IsRun(Init(n), events)
    ensures var s := Run(Init(n), events);
      forall k :: 0 <= k < |s.ids| ==> s.ids[k] == (k + 1) % WORD
  {
    InitInv(n);
    RunKeepsInv(Init(n), events);
  }

  lemma InitInv(n: nat)
    ensures Inv(Init(n))
  {
  }

  /** Two ids are equal exactly if a multiple of 2^32 swaps lies between them. */
  lemma IdsRepeatIff(n: nat, events: seq<Event>, i: nat, j: nat)
    requires IsRun(Init(n), events) && i <= j < |Run(Init(n), events).ids|
    ensures var ids := Run(Init(n), events).ids;
      && (ids[i] == ids[j] <==> (j - i) % WORD == 0)
      && (j - i < WORD && i != j ==> ids[i] != ids[j])
  {
    hide Run, IsRun, Init;
    KthIdIsK(n, events);
    SameRest(i + 1, j + 1, (i + 1) / WORD, (j + 1) / WORD);
  }

  lemma SameRest(a: nat, b: nat, p: nat, q: nat)
    requires a <= b && p == a / WORD && q == b / WORD
    ensures a % WORD == b % WORD <==> (b - a) % WORD == 0
    ensures 0 < b - a < WORD ==> (b - a) % WORD != 0
  {
    assert a == p * WORD + a % WORD && b == q * WORD + b % WORD;
    assert b - a == (q - p) * WORD + (b % WORD - a % WORD);
  }

  /** In every state each thread has one step it can take: a load outside the loop, a swap inside. */
  lemma EveryThreadSteps(n: nat, events: seq<Event>, t: nat)
    requires IsRun(Init(n), events) && t < n
    ensures |Run(Init(n), events).threads| == n
    ensures Enabled(Run(Init(n), events), Load(t)) <==> Run(Init(n), events).threads[t] == Idle
    ensures Enabled(Run(Init(n), events), Swap(t)) <==> Run(Init(n), events).threads[t] != Idle
  {
    InitInv(n);
    RunKeepsInv(Init(n), events);
    ThreadCount(Init(n), events);
  }

  /** A swap that fails was overtaken: another thread swapped since this one loaded the word. A swap that
    was not overtaken gives out an id. */
  lemma FailureMeansOvertaken(n: nat, events: seq<Event>, t: nat)
    requires IsRun(Init(n), events) && Enabled(Run(Init(n), events), Swap(t))
    ensures var s := Run(Init(n), events);
      && (s.word != s.threads[t].oldId ==> s.threads[t].since < ByOthers(s.owners, t))
      && (Step(s, Swap(t)).ids == s.ids ==> s.threads[t].since < ByOthers(s.owners, t))
      && (s.threads[t].since == ByOthers(s.owners, t) ==> |Step(s, Swap(t)).ids| == |s.ids| + 1)
  {
    InitInv(n);
    RunKeepsInv(Init(n), events);
    assert ThreadInv(Run(Init(n), events), t);
  }

  /** Lock freedom: a thread fails at most as often as the others succeed. */
  lemma FailuresBounded(n: nat, events: seq<Event>, t: nat)
    requires IsRun(Init(n), events) && t < n
    ensures |Run(Init(n), events).fails| == n
    ensures Run(Init(n), events).fails[t] <= ByOthers(Run(Init(n), events).owners, t) <= |Run(Init(n), events).ids|
  {
    InitInv(n);
    RunKeepsInv(Init(n), events);
    ThreadCount(Init(n), events);
    var s := Run(Init(n), events);
    assert ThreadInv(s, t);
    ByOthersAtMost(s.owners, t);
  }

  lemma {:induction false} ByOthersAtMost(owners: seq<nat>, t: nat)
    ensures ByOthers(owners, t) <= |owners|
  {
    if owners == [] {
    } else {
      ByOthersAtMost(owners[..|owners| - 1], t);
    }
  }

  lemma {:induction false} ThreadCount(s: State, events: seq<Event>)
    requires IsRun(s, events)
    ensures |Run(s, events).threads| == |s.threads|
    decreases |events|
  {
    if events == [] {
    } else {
      ThreadCount(Step(s, events[0]), events[1..]);
    }
  }
}
