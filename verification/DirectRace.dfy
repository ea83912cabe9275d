/** The bidirectional candidate race: tasks finish in any order, in any grouping, and may be cut short. */
module DirectRace {
  import opened Bytes

  /** A connected socket pair; `open` is what closing its writer changes. */
  class Connection {
    var open: bool

    constructor ()
      ensures open
    {
      open := true;
    }
  }

  /** How a task of the race ends, whether before or during the cancellation of the rest. */
  datatype Outcome = Obtained(connection: Connection) | OsError | OtherError

  datatype RaceError = Interrupted | TaskError

  predicate InRange(order: seq<nat>, n: nat) {
    forall i :: 0 <= i < |order| ==> order[i] < n
  }

  /** The first task in completion order that did not simply fail to connect. */
  function Decisive(outcomes: seq<Outcome>, order: seq<nat>): (t: Option<nat>)
    requires InRange(order, |outcomes|)
    ensures t.Some? ==> t.value < |outcomes|
  {
    if order == [] then None
    else if outcomes[order[0]] != OsError then Some(order[0])
    else
      assert InRange(order[1..], |outcomes|);
      Decisive(outcomes, order[1..])
  }

  /** What "first" means: everything that finished earlier failed to connect. */
  lemma {:induction false} DecisiveIsFirst(outcomes: seq<Outcome>, order: seq<nat>)
    requires InRange(order, |outcomes|)
    ensures match Decisive(outcomes, order)
      case Some(t) =>
        outcomes[t] != OsError
        && exists i :: 0 <= i < |order| && order[i] == t && forall j :: 0 <= j < i ==> outcomes[order[j]] == OsError
      case None => forall i :: 0 <= i < |order| ==> outcomes[order[i]] == OsError
  {
    if order != [] && outcomes[order[0]] == OsError {
      assert InRange(order[1..], |outcomes|);
      DecisiveIsFirst(outcomes, order[1..]);
      match Decisive(outcomes, order[1..])
      case Some(t) =>
        var i :| 0 <= i < |order[1..]| && order[1..][i] == t
              && forall j :: 0 <= j < i ==> outcomes[order[1..][j]] == OsError;
        assert order[i + 1] == t;
        forall j | 0 <= j < i + 1 ensures outcomes[order[j]] == OsError {
          if j > 0 {
            assert order[j] == order[1..][j - 1];
          }
        }
      case None =>
        forall i | 0 <= i < |order| ensures outcomes[order[i]] == OsError {
          if i > 0 {
            assert order[i] == order[1..][i - 1];
          }
        }
    }
  }

  predicate AllInRange(batches: seq<seq<nat>>, n: nat) {
    forall k :: 0 <= k < |batches| ==> InRange(batches[k], n)
  }

  /** The order in which the race looks at finished tasks. */
  function Flatten(batches: seq<seq<nat>>, n: nat): (order: seq<nat>)
    requires AllInRange(batches, n)
    ensures InRange(order, n)
  {
    if batches == [] then []
    else
      assert AllInRange(batches[1..], n);
      batches[0] + Flatten(batches[1..], n)
  }

  ghost predicate AllFailed(outcomes: seq<Outcome>, order: seq<nat>) {
    forall i :: 0 <= i < |order| ==> order[i] < |outcomes| && outcomes[order[i]] == OsError
  }

  /** The task at place i of group k, with nothing but failures to connect in earlier groups and places. */
  ghost predicate DecidesAt(outcomes: seq<Outcome>, batches: seq<seq<nat>>, k: nat, i: nat, t: nat) {
    && k < |batches| && i < |batches[k]| && batches[k][i] == t
    && t < |outcomes| && outcomes[t] != OsError
    && AllFailed(outcomes, batches[k][..i])
    && forall j :: 0 <= j < k ==> AllFailed(outcomes, batches[j])
  }

  lemma {:induction false} DecisivePlace(outcomes: seq<Outcome>, order: seq<nat>) returns (i: nat)
    requires InRange(order, |outcomes|) && Decisive(outcomes, order).Some?
    ensures i < |order| && order[i] == Decisive(outcomes, order).value && outcomes[order[i]] != OsError
    ensures AllFailed(outcomes, order[..i])
  {
    if outcomes[order[0]] != OsError {
      i := 0;
    } else {
      assert InRange(order[1..], |outcomes|);
      var j := DecisivePlace(outcomes, order[1..]);
      i := j + 1;
      assert order[..i] == [order[0]] + order[1..][..j];
    }
  }

  /** The task decides from some place. */
  ghost predicate DecidedBy(outcomes: seq<Outcome>, batches: seq<seq<nat>>, t: nat) {
    exists k: nat, i: nat :: DecidesAt(outcomes, batches, k, i, t)
  }

  ghost predicate NoneDecides(outcomes: seq<Outcome>, batches: seq<seq<nat>>) {
    forall k :: 0 <= k < |batches| ==> AllFailed(outcomes, batches[k])
  }

  /** The task that decides a race is the first, group by group, that did not simply fail to connect. */
  lemma {:induction false} DecisiveInGroups(outcomes: seq<Outcome>, batches: seq<seq<nat>>)
    requires AllInRange(batches, |outcomes|)
    ensures var decisive := Decisive(outcomes, Flatten(batches, |outcomes|));
      if decisive.Some? then DecidedBy(outcomes, batches, decisive.value) else NoneDecides(outcomes, batches)
  {
    if batches != [] {
      var n, first, rest := |outcomes|, batches[0], batches[1..];
      assert InRange(first, n);
      assert AllInRange(rest, n);
      DecisiveConcat(outcomes, first, Flatten(rest, n));
      DecisiveIsFirst(outcomes, first);
      var decisive := Decisive(outcomes, Flatten(batches, n));
      if Decisive(outcomes, first).Some? {
        assert decisive == Decisive(outcomes, first);
        var i := DecisivePlace(outcomes, first);
        assert DecidesAt(outcomes, batches, 0, i, first[i]);
      } else {
        DecisiveInGroups(outcomes, rest);
        assert decisive == Decisive(outcomes, Flatten(rest, n));
        assert AllFailed(outcomes, batches[0]);
        if decisive.Some? {
          var k: nat, i: nat :| DecidesAt(outcomes, rest, k, i, decisive.value);
          DecidesLater(outcomes, batches, k, i, decisive.value);
        } else {
          forall j | 0 <= j < |batches| ensures AllFailed(outcomes, batches[j]) {
            if j > 0 {
              assert batches[j] == rest[j - 1];
            }
          }
        }
      }
    }
  }

  lemma DecidesLater(outcomes: seq<Outcome>, batches: seq<seq<nat>>, k: nat, i: nat, t: nat)
    requires batches != [] && AllFailed(outcomes, batches[0]) && DecidesAt(outcomes, batches[1..], k, i, t)
    ensures DecidesAt(outcomes, batches, k + 1, i, t)
  {
    assert batches[k + 1] == batches[1..][k];
    forall j | 0 <= j < k + 1 ensures AllFailed(outcomes, batches[j]) {
      if j > 0 {
        assert batches[j] == batches[1..][j - 1];
      }
    }
  }

  predicate DistinctConnections(outcomes: seq<Outcome>) {
    forall i, j :: 0 <= i < j < |outcomes| && outcomes[i].Obtained? && outcomes[j].Obtained? ==>
      outcomes[i].connection != outcomes[j].connection
  }

  function Connections(outcomes: seq<Outcome>): set<Connection> {
    set i | 0 <= i < |outcomes| && outcomes[i].Obtained? :: outcomes[i].connection
  }

  /** One set of finished tasks: a winner ends the race, an unexpected error escapes, anything else goes on. */
  method Collect(outcomes: seq<Outcome>, finished: seq<nat>) returns (decided: Option<nat>)
    requires InRange(finished, |outcomes|)
    ensures decided == Decisive(outcomes, finished)
  {
    for k := 0 to |finished|
      invariant InRange(finished[k..], |outcomes|)
      invariant Decisive(outcomes, finished) == Decisive(outcomes, finished[k..])
    {
      assert finished[k..][0] == finished[k] && finished[k..][1..] == finished[k + 1..];
      if outcomes[finished[k]] != OsError {
        return Some(finished[k]);
      }
    }
    return None;
  }

  lemma {:induction false} DecisiveConcat(outcomes: seq<Outcome>, first: seq<nat>, second: seq<nat>)
    requires InRange(first, |outcomes|) && InRange(second, |outcomes|)
    ensures InRange(first + second, |outcomes|)
    ensures Decisive(outcomes, first + second)
         == if Decisive(outcomes, first).Some? then Decisive(outcomes, first) else Decisive(outcomes, second)
  {
    if first == [] {
      assert first + second == second;
    } else {
      assert InRange(first[1..], |outcomes|);
      assert (first + second)[1..] == first[1..] + second;
      DecisiveConcat(outcomes, first[1..], second);
    }
  }

  /** The cleanup: every connection obtained by a task other than the winner's is closed. */
  method CloseLosers(outcomes: seq<Outcome>, winner: Option<Connection>)
    modifies Connections(outcomes)
    ensures forall c :: c in Connections(outcomes) ==> c.open == (Some(c) == winner && old(c.open))
  {
    for i := 0 to |outcomes|
      invariant forall c :: c in Connections(outcomes) && Some(c) == winner ==> c.open == old(c.open)
      invariant forall j :: 0 <= j < i && outcomes[j].Obtained? && Some(outcomes[j].connection) != winner ==>
        !outcomes[j].connection.open
    {
      match outcomes[i]
      case Obtained(c) =>
        assert c in Connections(outcomes);
        if Some(c) != winner {
          c.open := false;
        }
      case _ =>
    }
  }

  /**
    The race. `batches` are the groups in which tasks are seen to finish; the race is interrupted (by its
    timeout, by cancellation, or for want of tasks) when they run out without a decision. Whatever happens,
    only the returned connection stays open.
  */
  method RaceDirectCandidates(outcomes: seq<Outcome>, batches: seq<seq<nat>>) returns (r: Result<Connection, RaceError>)
    requires AllInRange(batches, |outcomes|) && DistinctConnections(outcomes)
    requires forall c :: c in Connections(outcomes) ==> c.open
    modifies Connections(outcomes)
    ensures var decisive := Decisive(outcomes, Flatten(batches, |outcomes|));
      r == if decisive.None? then Err(Interrupted)
           else if outcomes[decisive.value].Obtained? then Ok(outcomes[decisive.value].connection)
           else Err(TaskError)
    ensures forall c :: c in Connections(outcomes) ==> (c.open <==> r == Ok(c))
    ensures r.Ok? ==> r.value in Connections(outcomes) && r.value.open
  {
    var decided: Option<nat> := None;
    ghost var n := |outcomes|;
    for k := 0 to |batches|
      invariant AllInRange(batches[k..], n)
      invariant decided == None
      invariant forall c :: c in Connections(outcomes) ==> c.open
      invariant Decisive(outcomes, Flatten(batches, n)) == Decisive(outcomes, Flatten(batches[k..], n))
    {
      assert batches[k..][0] == batches[k] && batches[k..][1..] == batches[k + 1..];
      assert InRange(batches[k], n);
      assert AllInRange(batches[k + 1..], n) by {
        assert forall j :: 0 <= j < |batches[k + 1..]| ==> InRange(batches[k..][1..][j], n);
      }
      DecisiveConcat(outcomes, batches[k], Flatten(batches[k + 1..], n));
      decided := Collect(outcomes, batches[k]);
      if decided.Some? {
        break;
      }
    }
    if decided.Some? && outcomes[decided.value].Obtained? {
      var winner := outcomes[decided.value].connection;
      assert winner in Connections(outcomes);
      CloseLosers(outcomes, Some(winner));
      return Ok(winner);
    }
    CloseLosers(outcomes, None);
    return Err(if decided.Some? then TaskError else Interrupted);
  }
}
