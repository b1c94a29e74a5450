/**
 * The in-memory store behind POST /time-entries and the handler step that
 * either rejects a request, leaving the store alone, or appends a new entry
 * stamped with the next identifier.
 */
module TimeEntries {
  import opened Options
  import opened Int32Arith
  import opened Text
  import opened Validation

  /** A stored entry. */
  datatype TimeEntry = TimeEntry(id: Int32, date: string, durationMinutes: Int32, project: string)

  /** The handler's captured state: the entry list and the identifier counter. */
  datatype Store = Store(entries: seq<TimeEntry>, nextId: Int32)

  /** The HTTP outcome: 201 with the entry, or 400 with the error list. */
  datatype Response = Created(entry: TimeEntry) | BadRequest(errors: seq<string>)

  /** One handler call: the store afterwards and the response sent. */
  datatype Step = Step(store: Store, response: Response)

  /** The state at start-up: no entries, counter at 1. */
  const Initial: Store := Store([], 1)

  /**
   * The identifier the k-th accepted request (counting from 0) receives:
   * the counter starts at 1 and every acceptance applies the unchecked `++`.
   */
  function IdAt(k: nat): Int32 {
    if k == 0 then 1 else Inc(IdAt(k - 1))
  }

  /** An entry whose fields pass every check of the validator. */
  predicate WellFormedEntry(e: TimeEntry, parses: string -> bool) {
    && !IsNullOrWhiteSpace(Some(e.date))
    && parses(e.date)
    && e.durationMinutes > 0
    && !IsNullOrWhiteSpace(Some(e.project))
  }

  /** The entry an accepted request is stored as. */
  function EntryFor(req: TimeEntryRequest, id: Int32, parses: string -> bool): TimeEntry
    requires Acceptable(req, parses)
  {
    TimeEntry(id, req.date.value, req.durationMinutes, req.project.value)
  }

  /**
   * The store invariant: the counter holds the identifier of the next
   * acceptance, the i-th entry holds the i-th identifier, and every stored
   * entry is well formed.
   */
  predicate Valid(s: Store, parses: string -> bool) {
    && s.nextId == IdAt(|s.entries|)
    && (forall i :: 0 <= i < |s.entries| ==> s.entries[i].id == IdAt(i))
    && (forall i :: 0 <= i < |s.entries| ==> WellFormedEntry(s.entries[i], parses))
  }

  /**
   * The POST /time-entries handler. A request with any validation error is
   * answered with exactly that error list and changes nothing; otherwise the
   * entry gets the current counter as its identifier, the fields are copied
   * unchanged, the counter steps on and the entry is appended.
   */
  function Handle(store: Store, req: TimeEntryRequest, parses: string -> bool): (step: Step)
    ensures step.response.Created? <==> Acceptable(req, parses)
    ensures step.response.BadRequest? ==>
              && step.response.errors == Messages(Validate(req, parses))
              && step.response.errors != []
              && step.store == store
    ensures step.response.Created? ==>
              && step.response.entry.id == store.nextId
              && Some(step.response.entry.date) == req.date
              && step.response.entry.durationMinutes == req.durationMinutes
              && Some(step.response.entry.project) == req.project
              && WellFormedEntry(step.response.entry, parses)
              && step.store.entries == store.entries + [step.response.entry]
              && step.store.nextId == Wrap(store.nextId + 1)
  {
    var errors := Validate(req, parses);
    if |errors| > 0 then
      Step(store, BadRequest(Messages(errors)))
    else
      var entry := TimeEntry(store.nextId, req.date.value, req.durationMinutes, req.project.value);
      Step(Store(store.entries + [entry], Inc(store.nextId)), Created(entry))
  }

  /** Applies the handler to each request in turn, one at a time. */
  function Run(s: Store, reqs: seq<TimeEntryRequest>, parses: string -> bool): Store
    decreases |reqs|
  {
    if reqs == [] then s else Run(Handle(s, reqs[0], parses).store, reqs[1..], parses)
  }

  /** The requests of `reqs` the handler accepts, in order. */
  function Accepted(reqs: seq<TimeEntryRequest>, parses: string -> bool): (acc: seq<TimeEntryRequest>)
    ensures |acc| <= |reqs|
    ensures forall k :: 0 <= k < |acc| ==> Acceptable(acc[k], parses) && acc[k] in reqs
    decreases |reqs|
  {
    if reqs == [] then []
    else if Acceptable(reqs[0], parses) then [reqs[0]] + Accepted(reqs[1..], parses)
    else Accepted(reqs[1..], parses)
  }

  /** The identifiers are the 32-bit truncations of 1, 2, 3, ... */
  lemma {:induction false} IdAtIsWrapped(k: nat)
    ensures IdAt(k) == Wrap(k + 1)
  {
    if k == 0 {
      WrapInRange(1);
    } else {
      IdAtIsWrapped(k - 1);
      IncOfWrap(k);
    }
  }

  /** Until the counter reaches int.MaxValue the k-th identifier is k + 1. */
  lemma IdAtBelowMax(k: nat)
    requires k < MaxInt32
    ensures IdAt(k) == k + 1
  {
    IdAtIsWrapped(k);
    WrapInRange(k + 1);
  }

  /** After 2^31 - 1 acceptances the counter wraps to a negative identifier. */
  lemma IdAtWrapsAtMax()
    ensures IdAt(MaxInt32) == MinInt32
  {
    IdAtIsWrapped(MaxInt32);
  }

  /** The start-up state satisfies the invariant. */
  lemma InitialValid(parses: string -> bool)
    ensures Valid(Initial, parses)
  {
  }

  /** One handler call preserves the invariant, whether it accepts or rejects. */
  lemma HandlePreservesValid(s: Store, req: TimeEntryRequest, parses: string -> bool)
    requires Valid(s, parses)
    ensures Valid(Handle(s, req, parses).store, parses)
  {
    var step := Handle(s, req, parses);
    if step.response.Created? {
      var n := |s.entries|;
      var after := step.store;
      assert after.entries == s.entries + [step.response.entry];
      assert after.nextId == Inc(IdAt(n)) == IdAt(n + 1);
      forall i | 0 <= i < n + 1
        ensures after.entries[i].id == IdAt(i) && WellFormedEntry(after.entries[i], parses)
      {
        if i < n {
          assert after.entries[i] == s.entries[i];
        }
      }
    }
  }

  /** Any run of requests from a valid store ends in a valid store. */
  lemma {:induction false} RunPreservesValid(s: Store, reqs: seq<TimeEntryRequest>, parses: string -> bool)
    requires Valid(s, parses)
    ensures Valid(Run(s, reqs, parses), parses)
    decreases |reqs|
  {
    if reqs != [] {
      HandlePreservesValid(s, reqs[0], parses);
      RunPreservesValid(Handle(s, reqs[0], parses).store, reqs[1..], parses);
    }
  }

  /**
   * `after` keeps the entries of `before` and appends one entry per request
   * of `acc`, in order, the k-th with identifier IdAt(|before.entries| + k).
   */
  predicate AppendsEntries(before: Store, after: Store, acc: seq<TimeEntryRequest>, parses: string -> bool)
    requires forall k :: 0 <= k < |acc| ==> Acceptable(acc[k], parses)
  {
    && |after.entries| == |before.entries| + |acc|
    && after.entries[..|before.entries|] == before.entries
    && (forall k :: 0 <= k < |acc| ==>
          after.entries[|before.entries| + k] == EntryFor(acc[k], IdAt(|before.entries| + k), parses))
  }

  /** Appending one entry and then a batch is appending the extended batch. */
  lemma AppendsCons(s: Store, mid: Store, after: Store, req: TimeEntryRequest,
                    rest: seq<TimeEntryRequest>, parses: string -> bool)
    requires Acceptable(req, parses)
    requires forall k :: 0 <= k < |rest| ==> Acceptable(rest[k], parses)
    requires mid.entries == s.entries + [EntryFor(req, IdAt(|s.entries|), parses)]
    requires AppendsEntries(mid, after, rest, parses)
    ensures AppendsEntries(s, after, [req] + rest, parses)
  {
    var n := |s.entries|;
    var acc := [req] + rest;
    assert after.entries[..n] == mid.entries[..n];
    forall k | 0 <= k < |acc|
      ensures after.entries[n + k] == EntryFor(acc[k], IdAt(n + k), parses)
    {
      if k == 0 {
        assert after.entries[n] == mid.entries[n];
      } else {
        assert acc[k] == rest[k - 1];
        assert n + k == (n + 1) + (k - 1);
      }
    }
  }

  /** A run appends exactly the accepted requests to what is already stored. */
  lemma {:induction false} RunAppendsAccepted(s: Store, reqs: seq<TimeEntryRequest>, parses: string -> bool)
    requires Valid(s, parses)
    ensures AppendsEntries(s, Run(s, reqs, parses), Accepted(reqs, parses), parses)
    decreases |reqs|
  {
    if reqs != [] {
      var mid := Handle(s, reqs[0], parses).store;
      HandlePreservesValid(s, reqs[0], parses);
      RunAppendsAccepted(mid, reqs[1..], parses);
      if Acceptable(reqs[0], parses) {
        AppendsCons(s, mid, Run(mid, reqs[1..], parses), reqs[0], Accepted(reqs[1..], parses), parses);
      }
    }
  }

  /** The entries for `acc` numbered from the first identifier, in order. */
  function Numbered(acc: seq<TimeEntryRequest>, parses: string -> bool): seq<TimeEntry>
    requires forall k :: 0 <= k < |acc| ==> Acceptable(acc[k], parses)
  {
    seq(|acc|, k requires 0 <= k < |acc| => EntryFor(acc[k], IdAt(k), parses))
  }

  /**
   * Every reachable state satisfies the invariant: from start-up, after any
   * sequence of requests, the counter is one past the entry count and the
   * i-th entry has id i + 1 while fewer than 2^31 - 1 entries exist, and
   * every stored entry is well formed.
   */
  lemma ReachableStates(reqs: seq<TimeEntryRequest>, parses: string -> bool)
    ensures Valid(Run(Initial, reqs, parses), parses)
    ensures var s := Run(Initial, reqs, parses);
            |s.entries| < MaxInt32 ==>
              && s.nextId == |s.entries| + 1
              && forall i :: 0 <= i < |s.entries| ==> s.entries[i].id == i + 1
  {
    RunPreservesValid(Initial, reqs, parses);
    var s := Run(Initial, reqs, parses);
    if |s.entries| < MaxInt32 {
      IdAtBelowMax(|s.entries|);
      forall i | 0 <= i < |s.entries|
        ensures s.entries[i].id == i + 1
      {
        IdAtBelowMax(i);
      }
    }
  }

  /**
   * From start-up the store holds exactly the accepted requests, in the
   * order they arrived, with identifiers IdAt(0), IdAt(1), ...
   */
  lemma ReachableEntries(reqs: seq<TimeEntryRequest>, parses: string -> bool)
    ensures Run(Initial, reqs, parses).entries == Numbered(Accepted(reqs, parses), parses)
  {
    InitialValid(parses);
    RunAppendsAccepted(Initial, reqs, parses);
    var after := Run(Initial, reqs, parses);
    var acc := Accepted(reqs, parses);
    assert |after.entries| == |acc|;
    forall k | 0 <= k < |acc|
      ensures after.entries[k] == Numbered(acc, parses)[k]
    {
      assert after.entries[0 + k] == EntryFor(acc[k], IdAt(0 + k), parses);
    }
  }

  /**
   * While at most 2^31 - 1 entries exist, identifiers are strictly increasing
   * in insertion order (hence unique), and the counter is above all of them
   * while fewer than that many exist.
   */
  lemma IdsIncreasing(s: Store, parses: string -> bool)
    requires Valid(s, parses)
    requires |s.entries| <= MaxInt32
    ensures forall i, j :: 0 <= i < j < |s.entries| ==> s.entries[i].id < s.entries[j].id
    ensures |s.entries| < MaxInt32 ==> forall i :: 0 <= i < |s.entries| ==> s.entries[i].id < s.nextId
  {
    forall i | 0 <= i < |s.entries|
      ensures s.entries[i].id == i + 1
    {
      IdAtBelowMax(i);
    }
    if |s.entries| < MaxInt32 {
      IdAtBelowMax(|s.entries|);
    }
  }

  /**
   * Creation is not idempotent: the same acceptable request sent twice
   * stores two entries with consecutive, distinct identifiers.
   */
  lemma SameRequestTwice(s: Store, req: TimeEntryRequest, parses: string -> bool)
    requires Valid(s, parses)
    requires |s.entries| + 1 < MaxInt32
    requires Acceptable(req, parses)
    ensures var first := Handle(s, req, parses);
            var second := Handle(first.store, req, parses);
            && first.response.Created? && second.response.Created?
            && first.response.entry.id == |s.entries| + 1
            && second.response.entry.id == first.response.entry.id + 1
            && |second.store.entries| == |s.entries| + 2
  {
    IdAtBelowMax(|s.entries|);
  }

  /**
   * On any store, whatever its size, the same acceptable request sent twice
   * gets two distinct identifiers: the second is the unchecked successor of
   * the first, and `++` on a 32-bit value never returns that value.
   */
  lemma SameRequestTwiceDistinct(s: Store, req: TimeEntryRequest, parses: string -> bool)
    requires Acceptable(req, parses)
    ensures var first := Handle(s, req, parses);
            var second := Handle(first.store, req, parses);
            && first.response.Created? && second.response.Created?
            && second.response.entry.id == Inc(first.response.entry.id)
            && first.response.entry.id != second.response.entry.id
  {
  }
}
