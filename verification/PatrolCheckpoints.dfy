/** The checkpoint rows of patrol routes: their unique sequence numbers, the two-phase reorder and route activation. */
module PatrolCheckpoints {
  import opened JsText
  import opened Ordering
  import opened PatrolVisits

  datatype Checkpoint = Checkpoint(id: nat, routeId: nat, sequence: int, spec: Spec, rules: Rules, active: bool,
                                   deleted: bool)

  datatype Item = Item(checkpointId: nat, sequence: int)

  datatype ReorderError = NotEveryCheckpoint | SequenceConflict | NotContiguous | NotOnRoute | UniqueViolation

  function RowSequence(c: Checkpoint): int {
    c.sequence
  }

  // ---- Rows ---------------------------------------------------------------------------------------------------------

  /** Ids are unique, and so is the sequence among all rows of a route, inactive and deleted ones included. */
  ghost predicate RowsOk(rows: seq<Checkpoint>) {
    forall i, j :: 0 <= i < j < |rows| ==>
      rows[i].id != rows[j].id && (rows[i].routeId == rows[j].routeId ==> rows[i].sequence != rows[j].sequence)
  }

  ghost predicate Positive(rows: seq<Checkpoint>) {
    forall c <- rows :: c.sequence >= 1
  }

  predicate Usable(c: Checkpoint, routeId: nat) {
    c.routeId == routeId && c.active && !c.deleted
  }

  function Filtered(rows: seq<Checkpoint>, routeId: nat): (r: seq<Checkpoint>)
    ensures forall c :: c in r <==> c in rows && Usable(c, routeId)
  {
    if rows == [] then []
    else
      var n := |rows| - 1;
      assert rows == rows[..n] + [rows[n]];
      Filtered(rows[..n], routeId) + if Usable(rows[n], routeId) then [rows[n]] else []
  }

  /** The active checkpoints of a route in sequence order. */
  function ActiveOf(rows: seq<Checkpoint>, routeId: nat): seq<Checkpoint> {
    Sorted(Filtered(rows, routeId), RowSequence)
  }

  lemma LastDiffers(rows: seq<Checkpoint>, c: Checkpoint)
    requires RowsOk(rows) && rows != [] && c in rows[..|rows| - 1]
    ensures var last := rows[|rows| - 1]; c.id != last.id && (c.routeId == last.routeId ==> c.sequence != last.sequence)
  {
    var k :| 0 <= k < |rows| - 1 && rows[..|rows| - 1][k] == c;
    assert rows[k] == c;
  }

  lemma {:induction false} FilteredDistinct(rows: seq<Checkpoint>, routeId: nat)
    requires RowsOk(rows)
    ensures DistinctKeys(Filtered(rows, routeId), RowSequence)
  {
    if rows != [] {
      var n := |rows| - 1;
      var front := Filtered(rows[..n], routeId);
      assert RowsOk(rows[..n]);
      FilteredDistinct(rows[..n], routeId);
      forall i | 0 <= i < |front| ensures RowSequence(front[i]) != RowSequence(rows[n]) || !Usable(rows[n], routeId) {
        assert front[i] in front;
        LastDiffers(rows, front[i]);
      }
    }
  }

  /** The ids and the sequences of the active checkpoints are distinct, and they are listed in increasing sequence. */
  lemma ActiveOrdered(rows: seq<Checkpoint>, routeId: nat)
    requires RowsOk(rows)
    ensures var r := ActiveOf(rows, routeId);
            && StrictlyAscending(r, RowSequence)
            && (forall c :: c in r <==> c in rows && Usable(c, routeId))
            && (forall i, j :: 0 <= i < j < |r| ==> r[i].id != r[j].id)
  {
    FilteredDistinct(rows, routeId);
    SortedSorts(Filtered(rows, routeId), RowSequence);
    SortedStrictly(Filtered(rows, routeId), RowSequence);
    var r := ActiveOf(rows, routeId);
    forall i, j | 0 <= i < j < |r| ensures r[i].id != r[j].id {
      assert RowSequence(r[i]) < RowSequence(r[j]);
      SameIdSameRow(rows, r[i], r[j]);
    }
  }

  lemma SameIdSameRow(rows: seq<Checkpoint>, a: Checkpoint, b: Checkpoint)
    requires RowsOk(rows) && a in rows && b in rows
    ensures a.id == b.id ==> a == b
    ensures a.routeId == b.routeId && a.sequence == b.sequence ==> a == b
  {
    var i, j :| 0 <= i < |rows| && 0 <= j < |rows| && rows[i] == a && rows[j] == b;
  }

  // ---- Route activation ---------------------------------------------------------------------------------------------

  datatype ActivationError = NoCheckpoints | SequenceGap | QrRequired

  predicate QrMissing(c: Checkpoint) {
    NeedsQr(c.spec.verification) && c.spec.qrHash.None?
  }

  /** What the loop of assertCanActivate has found up to and excluding index `n`. */
  function ActivationErrorBefore(ordered: seq<Checkpoint>, n: nat): Option<ActivationError>
    requires n <= |ordered|
  {
    if n == 0 then None
    else if ActivationErrorBefore(ordered, n - 1).Some? then ActivationErrorBefore(ordered, n - 1)
    else if ordered[n - 1].sequence != n then Some(SequenceGap)
    else if QrMissing(ordered[n - 1]) then Some(QrRequired)
    else None
  }

  function ActivationFailure(rows: seq<Checkpoint>, routeId: nat): Option<ActivationError> {
    var ordered := ActiveOf(rows, routeId);
    if ordered == [] then Some(NoCheckpoints) else ActivationErrorBefore(ordered, |ordered|)
  }

  method AssertCanActivate(rows: seq<Checkpoint>, routeId: nat) returns (failure: Option<ActivationError>)
    ensures failure == ActivationFailure(rows, routeId)
  {
    var ordered := ActiveOf(rows, routeId);
    if |ordered| == 0 { return Some(NoCheckpoints); }
    for i := 0 to |ordered|
      invariant ActivationErrorBefore(ordered, i).None?
    {
      if ordered[i].sequence != i + 1 {
        NoFailureLater(ordered, i + 1);
        return Some(SequenceGap);
      }
      if QrMissing(ordered[i]) {
        NoFailureLater(ordered, i + 1);
        return Some(QrRequired);
      }
    }
    return None;
  }

  lemma {:induction false} NoFailureLater(ordered: seq<Checkpoint>, n: nat)
    requires n <= |ordered| && ActivationErrorBefore(ordered, n).Some?
    ensures ActivationErrorBefore(ordered, |ordered|) == ActivationErrorBefore(ordered, n)
    decreases |ordered| - n
  {
    if n < |ordered| { NoFailureLater(ordered, n + 1); }
  }

  lemma {:induction false} ErrorFreeBefore(ordered: seq<Checkpoint>, n: nat)
    requires n <= |ordered|
    ensures ActivationErrorBefore(ordered, n).None?
       <==> forall i :: 0 <= i < n ==> ordered[i].sequence == i + 1 && !QrMissing(ordered[i])
  {
    if n > 0 { ErrorFreeBefore(ordered, n - 1); }
  }

  /** The sequences in use on the route are 1, 2, .. without a gap. */
  ghost predicate Contiguous(ordered: seq<Checkpoint>) {
    forall i :: 0 <= i < |ordered| ==> ordered[i].sequence == i + 1
  }

  /** A route passes exactly when it has checkpoints, numbered 1..n, each with a QR hash if its method scans one. */
  lemma ActivatesExactly(rows: seq<Checkpoint>, routeId: nat)
    ensures ActivationFailure(rows, routeId).None?
       <==> var ordered := ActiveOf(rows, routeId);
            && ordered != [] && Contiguous(ordered)
            && forall c <- ordered ::
                 c.spec.verification == QR_CODE || c.spec.verification == GPS_AND_QR ==> c.spec.qrHash.Some?
  {
    var ordered := ActiveOf(rows, routeId);
    ErrorFreeBefore(ordered, |ordered|);
    assert forall i :: 0 <= i < |ordered| ==> ordered[i] in ordered;
  }

  /** The failure is that of the first checkpoint in sequence order that is out of number or lacks its QR hash. */
  lemma FailureIsFirst(rows: seq<Checkpoint>, routeId: nat)
    ensures var ordered, e := ActiveOf(rows, routeId), ActivationFailure(rows, routeId);
            && (e == Some(NoCheckpoints) <==> ordered == [])
            && (e == Some(SequenceGap) || e == Some(QrRequired) ==>
                  exists k: nat ::
                    FirstUnfit(ordered, k) && (e == Some(SequenceGap) <==> ordered[k].sequence != k + 1))
  {
    var ordered := ActiveOf(rows, routeId);
    ErrorAt(ordered, |ordered|);
  }

  ghost predicate FirstUnfit(ordered: seq<Checkpoint>, k: nat) {
    k < |ordered| && (ordered[k].sequence != k + 1 || QrMissing(ordered[k]))
    && forall i :: 0 <= i < k ==> ordered[i].sequence == i + 1 && !QrMissing(ordered[i])
  }

  lemma {:induction false} ErrorAt(ordered: seq<Checkpoint>, n: nat)
    requires n <= |ordered|
    ensures var e := ActivationErrorBefore(ordered, n);
            && e != Some(NoCheckpoints)
            && (e.Some? ==>
                  exists k: nat ::
                    FirstUnfit(ordered, k) && (e == Some(SequenceGap) <==> ordered[k].sequence != k + 1))
  {
    if n > 0 {
      ErrorAt(ordered, n - 1);
      ErrorFreeBefore(ordered, n - 1);
      var e := ActivationErrorBefore(ordered, n);
      if ActivationErrorBefore(ordered, n - 1).None? && e.Some? { assert FirstUnfit(ordered, n - 1); }
    }
  }

  // ---- Updating one sequence ----------------------------------------------------------------------------------------

  predicate HasRow(rows: seq<Checkpoint>, id: nat) {
    exists c <- rows :: c.id == id
  }

  predicate SequenceTaken(rows: seq<Checkpoint>, routeId: nat, sequence: int, except: nat) {
    exists c <- rows :: c.routeId == routeId && c.sequence == sequence && c.id != except
  }

  function WithSequence(rows: seq<Checkpoint>, id: nat, sequence: int): (r: seq<Checkpoint>)
    ensures |r| == |rows|
    ensures forall i :: 0 <= i < |rows| ==> r[i] == if rows[i].id == id then rows[i].(sequence := sequence) else rows[i]
  {
    if rows == [] then []
    else [if rows[0].id == id then rows[0].(sequence := sequence) else rows[0]] + WithSequence(rows[1..], id, sequence)
  }

  /** One row update under the unique index on route and sequence. */
  function UpdateSequence(rows: seq<Checkpoint>, routeId: nat, u: Item): Option<seq<Checkpoint>> {
    if SequenceTaken(rows, routeId, u.sequence, u.checkpointId) then None
    else Some(WithSequence(rows, u.checkpointId, u.sequence))
  }

  /** The first `n` updates of a transaction. */
  function Updated(rows: seq<Checkpoint>, routeId: nat, updates: seq<Item>, n: nat): Option<seq<Checkpoint>>
    requires n <= |updates|
  {
    if n == 0 then Some(rows)
    else
      var before := Updated(rows, routeId, updates, n - 1);
      if before.None? then None else UpdateSequence(before.value, routeId, updates[n - 1])
  }

  lemma UpdatedNext(rows: seq<Checkpoint>, routeId: nat, updates: seq<Item>, n: nat)
    requires n < |updates| && Updated(rows, routeId, updates, n).Some?
    ensures Updated(rows, routeId, updates, n + 1)
         == UpdateSequence(Updated(rows, routeId, updates, n).value, routeId, updates[n])
  {
  }

  // ---- Reorder ------------------------------------------------------------------------------------------------------

  function Placeholders(items: seq<Item>): (r: seq<Item>)
    ensures |r| == |items| && forall i :: 0 <= i < |items| ==> r[i] == Item(items[i].checkpointId, -(i + 1))
  {
    seq(|items|, i requires 0 <= i < |items| => Item(items[i].checkpointId, -(i + 1)))
  }

  /** First every named row to a negative placeholder, then every named row to its requested sequence. */
  function TwoPhases(items: seq<Item>): seq<Item> {
    Placeholders(items) + items
  }

  predicate SequencesDistinct(items: seq<Item>) {
    forall i, j :: 0 <= i < j < |items| ==> items[i].sequence != items[j].sequence
  }

  predicate Includes(items: seq<Item>, sequence: int) {
    exists item <- items :: item.sequence == sequence
  }

  predicate Named(items: seq<Item>, id: nat) {
    exists item <- items :: item.checkpointId == id
  }

  /** The checks of the request, in order. */
  function ReorderRefusal(rows: seq<Checkpoint>, routeId: nat, items: seq<Item>): Option<ReorderError> {
    var active := ActiveOf(rows, routeId);
    if |items| != |active| then Some(NotEveryCheckpoint)
    else if !SequencesDistinct(items) then Some(SequenceConflict)
    else if !(forall k :: 1 <= k <= |items| ==> Includes(items, k)) then Some(NotContiguous)
    else if !(forall item <- items :: HasRow(active, item.checkpointId)) then Some(NotOnRoute)
    else None
  }

  datatype ReorderResult = Reordered(rows: seq<Checkpoint>) | Refused(error: ReorderError)

  function Reorder(rows: seq<Checkpoint>, routeId: nat, items: seq<Item>): ReorderResult {
    var refusal := ReorderRefusal(rows, routeId, items);
    if refusal.Some? then Refused(refusal.value)
    else
      var r := Updated(rows, routeId, TwoPhases(items), |TwoPhases(items)|);
      if r.None? then Refused(UniqueViolation) else Reordered(r.value)
  }

  /** A row of the route that the request does not name holds one of the sequences 1..n. */
  ghost predicate Obstructed(rows: seq<Checkpoint>, routeId: nat, items: seq<Item>) {
    exists c <- rows :: c.routeId == routeId && 1 <= c.sequence <= |items| && !Named(items, c.id)
  }

  ghost predicate NamesDistinct(items: seq<Item>) {
    forall i, j :: 0 <= i < j < |items| ==> items[i].checkpointId != items[j].checkpointId
  }

  // After the first k updates every row is as before or, once named, holds what it was last given.

  /** The index of the last update before `n` that names `id`. */
  ghost function LastNamed(updates: seq<Item>, id: nat, n: nat): (r: Option<nat>)
    requires n <= |updates|
    ensures r.Some? ==> r.value < n && updates[r.value].checkpointId == id
    ensures r.Some? ==> forall j :: r.value < j < n ==> updates[j].checkpointId != id
    ensures r.None? ==> forall j :: 0 <= j < n ==> updates[j].checkpointId != id
  {
    if n == 0 then None else if updates[n - 1].checkpointId == id then Some(n - 1) else LastNamed(updates, id, n - 1)
  }

  ghost function SequenceAfter(c: Checkpoint, updates: seq<Item>, n: nat): int
    requires n <= |updates|
  {
    var last := LastNamed(updates, c.id, n);
    if last.Some? then updates[last.value].sequence else c.sequence
  }

  lemma SequenceAfterUpdate(c: Checkpoint, updates: seq<Item>, n: nat)
    requires 0 < n <= |updates|
    ensures SequenceAfter(c, updates, n) ==
      if updates[n - 1].checkpointId == c.id then updates[n - 1].sequence else SequenceAfter(c, updates, n - 1)
  {
  }

  lemma {:induction false} RowsAfter(rows: seq<Checkpoint>, routeId: nat, updates: seq<Item>, n: nat)
    requires n <= |updates| && Updated(rows, routeId, updates, n).Some?
    ensures var r := Updated(rows, routeId, updates, n).value;
            |r| == |rows|
            && forall i :: 0 <= i < |rows| ==> r[i] == rows[i].(sequence := SequenceAfter(rows[i], updates, n))
  {
    hide SequenceTaken;
    if n > 0 {
      RowsAfter(rows, routeId, updates, n - 1);
      hide SequenceAfter;
      var r := Updated(rows, routeId, updates, n).value;
      forall i | 0 <= i < |rows| ensures r[i] == rows[i].(sequence := SequenceAfter(rows[i], updates, n)) {
        SequenceAfterUpdate(rows[i], updates, n);
      }
    }
  }

  /** After every single row update the rows still have distinct ids and, route by route, distinct sequences. */
  lemma {:induction false} EveryUpdateKeepsRowsOk(rows: seq<Checkpoint>, routeId: nat, updates: seq<Item>, n: nat)
    requires RowsOk(rows) && n <= |updates| && Updated(rows, routeId, updates, n).Some?
    requires forall u <- updates :: forall c <- rows :: c.id == u.checkpointId ==> c.routeId == routeId
    ensures RowsOk(Updated(rows, routeId, updates, n).value)
  {
    if n > 0 {
      EveryUpdateKeepsRowsOk(rows, routeId, updates, n - 1);
      RowsAfter(rows, routeId, updates, n - 1);
      var before := Updated(rows, routeId, updates, n - 1).value;
      assert updates[n - 1] in updates;
      forall i | 0 <= i < |before|
        ensures before[i].id == updates[n - 1].checkpointId ==> before[i].routeId == routeId
      {
        assert rows[i] in rows;
      }
      UpdateKeepsRowsOk(before, routeId, updates[n - 1]);
    }
  }

  lemma UpdateKeepsRowsOk(rows: seq<Checkpoint>, routeId: nat, u: Item)
    requires RowsOk(rows) && UpdateSequence(rows, routeId, u).Some?
    requires forall i :: 0 <= i < |rows| && rows[i].id == u.checkpointId ==> rows[i].routeId == routeId
    ensures RowsOk(UpdateSequence(rows, routeId, u).value)
  {
    var r := UpdateSequence(rows, routeId, u).value;
    forall i, j | 0 <= i < j < |r|
      ensures r[i].id != r[j].id && (r[i].routeId == r[j].routeId ==> r[i].sequence != r[j].sequence)
    {
      assert rows[i] in rows && rows[j] in rows;
    }
  }

  /** While no unnamed row obstructs, no update of the two phases meets a taken sequence. */
  lemma {:induction false} UnobstructedCommits(rows: seq<Checkpoint>, routeId: nat, items: seq<Item>, n: nat)
    requires RowsOk(rows) && Positive(rows) && n <= |TwoPhases(items)|
    requires SequencesDistinct(items) && (forall item <- items :: 1 <= item.sequence <= |items|)
    requires !Obstructed(rows, routeId, items)
    ensures Updated(rows, routeId, TwoPhases(items), n).Some?
  {
    hide TwoPhases, Obstructed, SequenceAfter, RowsOk, Positive, SequencesDistinct, Updated, UpdateSequence;
    if n == 0 {
      NoUpdateYet(rows, routeId, TwoPhases(items));
    } else {
      UnobstructedCommits(rows, routeId, items, n - 1);
      var updates := TwoPhases(items);
      RowsAfter(rows, routeId, updates, n - 1);
      var before := Updated(rows, routeId, updates, n - 1).value;
      forall i | 0 <= i < |before| && before[i].routeId == routeId && before[i].id != updates[n - 1].checkpointId
        ensures before[i].sequence != updates[n - 1].sequence
      {
        NoClash(rows, routeId, items, n, rows[i]);
      }
      FreeSequenceIsGiven(before, routeId, updates[n - 1]);
      UpdatedNext(rows, routeId, updates, n - 1);
    }
  }

  lemma NoUpdateYet(rows: seq<Checkpoint>, routeId: nat, updates: seq<Item>)
    ensures Updated(rows, routeId, updates, 0).Some?
  {
  }

  lemma FreeSequenceIsGiven(rows: seq<Checkpoint>, routeId: nat, u: Item)
    requires forall i :: 0 <= i < |rows| && rows[i].routeId == routeId && rows[i].id != u.checkpointId ==>
               rows[i].sequence != u.sequence
    ensures UpdateSequence(rows, routeId, u).Some?
  {
  }

  lemma TwoPhasesAt(items: seq<Item>, j: nat)
    requires j < 2 * |items|
    ensures |TwoPhases(items)| == 2 * |items|
    ensures TwoPhases(items)[j] == if j < |items| then Item(items[j].checkpointId, -(j + 1)) else items[j - |items|]
  {
  }

  lemma PhasesDistinct(items: seq<Item>, j: nat, k: nat)
    requires SequencesDistinct(items) && (forall item <- items :: 1 <= item.sequence) && j < k < |TwoPhases(items)|
    ensures TwoPhases(items)[j].sequence != TwoPhases(items)[k].sequence
  {
    TwoPhasesAt(items, j);
    TwoPhasesAt(items, k);
    hide TwoPhases;
    if k >= |items| { assert items[k - |items|] in items; }
  }

  lemma NoClash(rows: seq<Checkpoint>, routeId: nat, items: seq<Item>, n: nat, c: Checkpoint)
    requires Positive(rows) && 0 < n <= |TwoPhases(items)| && c in rows && c.routeId == routeId
    requires SequencesDistinct(items) && (forall item <- items :: 1 <= item.sequence <= |items|)
    requires !Obstructed(rows, routeId, items)
    requires c.id != TwoPhases(items)[n - 1].checkpointId
    ensures SequenceAfter(c, TwoPhases(items), n - 1) != TwoPhases(items)[n - 1].sequence
  {
    var updates := TwoPhases(items);
    var last := LastNamed(updates, c.id, n - 1);
    hide SequencesDistinct, LastNamed;
    if last.Some? {
      PhasesDistinct(items, last.value, n - 1);
    } else {
      Unmoved(rows, routeId, items, n, c);
    }
  }

  lemma Unmoved(rows: seq<Checkpoint>, routeId: nat, items: seq<Item>, n: nat, c: Checkpoint)
    requires Positive(rows) && 0 < n <= |TwoPhases(items)| && c in rows && c.routeId == routeId
    requires (forall item <- items :: 1 <= item.sequence <= |items|) && !Obstructed(rows, routeId, items)
    requires forall j :: 0 <= j < n - 1 ==> TwoPhases(items)[j].checkpointId != c.id
    ensures c.sequence != TwoPhases(items)[n - 1].sequence
  {
    var updates, m := TwoPhases(items), |items|;
    TwoPhasesAt(items, n - 1);
    if n > m {
      forall j | 0 <= j < m ensures items[j].checkpointId != c.id { TwoPhasesAt(items, j); }
      assert !Named(items, c.id);
      assert items[n - 1 - m] in items;
    }
  }

  function ItemSequences(items: seq<Item>): (r: seq<int>)
    ensures |r| == |items| && forall i :: 0 <= i < |items| ==> r[i] == items[i].sequence
  {
    seq(|items|, i requires 0 <= i < |items| => items[i].sequence)
  }

  function ItemIds(items: seq<Item>): (r: seq<int>)
    ensures |r| == |items| && forall i :: 0 <= i < |items| ==> r[i] == items[i].checkpointId
  {
    seq(|items|, i requires 0 <= i < |items| => items[i].checkpointId)
  }

  function RowIds(rows: seq<Checkpoint>): (r: seq<int>)
    ensures |r| == |rows| && forall i :: 0 <= i < |rows| ==> r[i] == rows[i].id
  {
    seq(|rows|, i requires 0 <= i < |rows| => rows[i].id)
  }

  function UpTo(n: nat): (r: seq<int>)
    ensures |r| == n && forall i :: 0 <= i < n ==> r[i] == i + 1
  {
    seq(n, i => i + 1)
  }

  /** Distinct sequences among which 1..n all occur are no others. */
  lemma AcceptedSequences(rows: seq<Checkpoint>, routeId: nat, items: seq<Item>)
    requires ReorderRefusal(rows, routeId, items).None?
    ensures SequencesDistinct(items) && forall item <- items :: 1 <= item.sequence <= |items|
  {
    var n := |items|;
    var s, t := UpTo(n), ItemSequences(items);
    forall x | x in s ensures x in t {
      assert 1 <= x <= n;
      assert Includes(items, x);
      var i :| 0 <= i < n && items[i].sequence == x;
      assert t[i] == x;
    }
    SameSizeCovers(s, t);
    forall item | item in items ensures 1 <= item.sequence <= n {
      var i :| 0 <= i < n && items[i] == item;
      assert t[i] in t;
    }
  }

  lemma ItemIdsDistinct(items: seq<Item>)
    ensures NamesDistinct(items) <==> Distinct(ItemIds(items))
    ensures forall id: nat :: Named(items, id) <==> id in ItemIds(items)
  {
    var s := ItemIds(items);
    forall id: nat ensures Named(items, id) <==> id in s {
      if Named(items, id) {
        var i :| 0 <= i < |items| && items[i].checkpointId == id;
        assert s[i] == id;
      }
      if id in s {
        var i :| 0 <= i < |s| && s[i] == id;
        assert items[i] in items;
      }
    }
  }

  lemma RowIdsCover(rows: seq<Checkpoint>)
    ensures forall id: nat :: HasRow(rows, id) <==> id in RowIds(rows)
  {
    var t := RowIds(rows);
    forall id: nat ensures HasRow(rows, id) <==> id in t {
      if HasRow(rows, id) {
        var k :| 0 <= k < |rows| && rows[k].id == id;
        assert t[k] == id;
      }
      if id in t {
        var k :| 0 <= k < |t| && t[k] == id;
        assert rows[k] in rows;
      }
    }
  }

  lemma NamesWithin(active: seq<Checkpoint>, items: seq<Item>)
    requires |items| == |active| && (forall item <- items :: HasRow(active, item.checkpointId))
    requires Distinct(RowIds(active))
    ensures NamesDistinct(items) <==> forall c <- active :: Named(items, c.id)
  {
    var s, t := ItemIds(items), RowIds(active);
    ItemIdsDistinct(items);
    RowIdsCover(active);
    forall x | x in s ensures x in t {
      var i :| 0 <= i < |items| && items[i].checkpointId == x;
      assert items[i] in items;
    }
    hide NamesDistinct, Named, HasRow;
    if NamesDistinct(items) {
      SameSizeCovers(s, t);
      forall c | c in active ensures Named(items, c.id) {
        var k :| 0 <= k < |active| && active[k] == c;
        assert t[k] in s;
      }
    } else if forall c <- active :: Named(items, c.id) {
      forall x | x in t ensures x in s {
        var k :| 0 <= k < |active| && active[k].id == x;
        assert active[k] in active;
      }
      SameSizeCovers(t, s);
    }
  }

  /** An accepted request that names no checkpoint twice names every active one, and one that does leaves some out. */
  lemma NamesEveryActiveExactly(rows: seq<Checkpoint>, routeId: nat, items: seq<Item>)
    requires RowsOk(rows) && ReorderRefusal(rows, routeId, items).None?
    ensures NamesDistinct(items) <==> forall c <- ActiveOf(rows, routeId) :: Named(items, c.id)
  {
    ActiveOrdered(rows, routeId);
    hide RowsOk, ActiveOf, Named, NamesDistinct, HasRow, SequencesDistinct, Includes;
    NamesWithin(ActiveOf(rows, routeId), items);
  }

  lemma {:induction false} AbortIsFinal(rows: seq<Checkpoint>, routeId: nat, updates: seq<Item>, n: nat)
    requires n <= |updates| && Updated(rows, routeId, updates, n).None?
    ensures Updated(rows, routeId, updates, |updates|).None?
    decreases |updates| - n
  {
    if n < |updates| { AbortIsFinal(rows, routeId, updates, n + 1); }
  }

  lemma ObstructedAborts(rows: seq<Checkpoint>, routeId: nat, items: seq<Item>)
    requires ReorderRefusal(rows, routeId, items).None? && Obstructed(rows, routeId, items)
    ensures Updated(rows, routeId, TwoPhases(items), |TwoPhases(items)|).None?
  {
    hide Updated, ActiveOf, SequenceAfter, TwoPhases;
    var c :| c in rows && c.routeId == routeId && 1 <= c.sequence <= |items| && !Named(items, c.id);
    assert Includes(items, c.sequence);
    var i :| 0 <= i < |items| && items[i].sequence == c.sequence;
    ObstructionMet(rows, routeId, items, c, i);
  }

  lemma ObstructionMet(rows: seq<Checkpoint>, routeId: nat, items: seq<Item>, c: Checkpoint, i: nat)
    requires c in rows && c.routeId == routeId && !Named(items, c.id) && i < |items| && items[i].sequence == c.sequence
    ensures Updated(rows, routeId, TwoPhases(items), |TwoPhases(items)|).None?
  {
    hide TwoPhases, Updated, SequenceAfter;
    var m, updates := |items|, TwoPhases(items);
    TwoPhasesAt(items, m + i);
    if Updated(rows, routeId, updates, m + i).Some? {
      RowsAfter(rows, routeId, updates, m + i);
      UnnamedKeeps(items, c, m + i);
      var before := Updated(rows, routeId, updates, m + i).value;
      var k :| 0 <= k < |rows| && rows[k] == c;
      assert before[k] == c && before[k] in before;
      assert items[i] in items;
      UpdateBlocked(rows, routeId, updates, m + i, c);
      AbortIsFinal(rows, routeId, updates, m + i + 1);
    } else {
      AbortIsFinal(rows, routeId, updates, m + i);
    }
  }

  lemma UpdateBlocked(rows: seq<Checkpoint>, routeId: nat, updates: seq<Item>, n: nat, c: Checkpoint)
    requires n < |updates| && Updated(rows, routeId, updates, n).Some? && c in Updated(rows, routeId, updates, n).value
    requires c.routeId == routeId && c.sequence == updates[n].sequence && c.id != updates[n].checkpointId
    ensures Updated(rows, routeId, updates, n + 1).None?
  {
  }

  lemma UnnamedKeeps(items: seq<Item>, c: Checkpoint, n: nat)
    requires !Named(items, c.id) && n <= |TwoPhases(items)|
    ensures SequenceAfter(c, TwoPhases(items), n) == c.sequence
  {
    var updates := TwoPhases(items);
    forall j | 0 <= j < n ensures updates[j].checkpointId != c.id {
      assert items[if j < |items| then j else j - |items|] in items;
    }
  }

  lemma NamedGets(items: seq<Item>, c: Checkpoint, i: nat)
    requires NamesDistinct(items) && i < |items| && items[i].checkpointId == c.id
    ensures SequenceAfter(c, TwoPhases(items), |TwoPhases(items)|) == items[i].sequence
  {
    var updates, m := TwoPhases(items), |items|;
    assert updates[m + i] == items[i];
    assert forall j :: m <= j < |updates| ==> updates[j] == items[j - m];
  }

  /** Whoever is named ends between 1 and n. */
  lemma NamedEndsPositive(items: seq<Item>, c: Checkpoint)
    requires Named(items, c.id) && forall item <- items :: 1 <= item.sequence <= |items|
    ensures 1 <= SequenceAfter(c, TwoPhases(items), |TwoPhases(items)|) <= |items|
  {
    var updates, m := TwoPhases(items), |items|;
    var i :| 0 <= i < m && items[i].checkpointId == c.id;
    assert updates[m + i] == items[i];
    var last := LastNamed(updates, c.id, |updates|);
    assert last.value >= m + i;
    assert updates[last.value] == items[last.value - m] && items[last.value - m] in items;
  }

  /** An accepted request commits exactly when no row of the route outside the request - inactive and deleted ones count
      - holds one of the requested sequences. */
  lemma ReorderCommitsExactly(rows: seq<Checkpoint>, routeId: nat, items: seq<Item>)
    requires RowsOk(rows) && Positive(rows) && ReorderRefusal(rows, routeId, items).None?
    ensures Reorder(rows, routeId, items).Reordered? <==> !Obstructed(rows, routeId, items)
  {
    if Obstructed(rows, routeId, items) {
      ObstructedAborts(rows, routeId, items);
    } else {
      AcceptedSequences(rows, routeId, items);
      UnobstructedCommits(rows, routeId, items, |TwoPhases(items)|);
    }
  }

  /** Each row after the reorder: named rows hold what they were given last, all others are untouched. */
  lemma ReorderedRows(rows: seq<Checkpoint>, routeId: nat, items: seq<Item>)
    requires Reorder(rows, routeId, items).Reordered?
    ensures var r := Reorder(rows, routeId, items).rows;
            && |r| == |rows|
            && (forall i :: 0 <= i < |rows| ==> r[i] == rows[i].(sequence := r[i].sequence))
            && (forall i :: 0 <= i < |rows| && !Named(items, rows[i].id) ==> r[i] == rows[i])
            && (forall i :: 0 <= i < |rows| && Named(items, rows[i].id) ==> 1 <= r[i].sequence <= |items|)
            && (NamesDistinct(items) ==>
                  forall i, k :: 0 <= i < |rows| && 0 <= k < |items| && items[k].checkpointId == rows[i].id ==>
                    r[i].sequence == items[k].sequence)
  {
    var updates := TwoPhases(items);
    RowsAfter(rows, routeId, updates, |updates|);
    AcceptedSequences(rows, routeId, items);
    forall i | 0 <= i < |rows| && !Named(items, rows[i].id) ensures Reorder(rows, routeId, items).rows[i] == rows[i] {
      UnnamedKeeps(items, rows[i], |updates|);
    }
    forall i | 0 <= i < |rows| && Named(items, rows[i].id)
      ensures 1 <= Reorder(rows, routeId, items).rows[i].sequence <= |items|
    {
      NamedEndsPositive(items, rows[i]);
    }
    if NamesDistinct(items) {
      forall i, k | 0 <= i < |rows| && 0 <= k < |items| && items[k].checkpointId == rows[i].id
        ensures Reorder(rows, routeId, items).rows[i].sequence == items[k].sequence
      {
        NamedGets(items, rows[i], k);
      }
    }
  }

  lemma ItemsOnRoute(rows: seq<Checkpoint>, routeId: nat, items: seq<Item>)
    requires RowsOk(rows) && ReorderRefusal(rows, routeId, items).None?
    ensures forall item <- items :: forall c <- rows :: c.id == item.checkpointId ==> Usable(c, routeId)
  {
    ActiveOrdered(rows, routeId);
    forall item, c | item in items && c in rows && c.id == item.checkpointId ensures Usable(c, routeId) {
      assert HasRow(ActiveOf(rows, routeId), item.checkpointId);
      var d :| d in ActiveOf(rows, routeId) && d.id == item.checkpointId;
      SameIdSameRow(rows, c, d);
    }
  }

  /** At every point inside the transaction the rows have distinct ids and sequences. */
  lemma TransactionKeepsRowsOk(rows: seq<Checkpoint>, routeId: nat, items: seq<Item>, n: nat)
    requires RowsOk(rows) && Reorder(rows, routeId, items).Reordered? && n <= |TwoPhases(items)|
    ensures Updated(rows, routeId, TwoPhases(items), n).Some?
    ensures RowsOk(Updated(rows, routeId, TwoPhases(items), n).value)
  {
    ItemsOnRoute(rows, routeId, items);
    hide RowsOk, ReorderRefusal;
    var updates := TwoPhases(items);
    forall u, c | u in updates && c in rows && c.id == u.checkpointId ensures c.routeId == routeId {
      var j :| 0 <= j < |updates| && updates[j] == u;
      assert items[if j < |items| then j else j - |items|] in items;
    }
    if Updated(rows, routeId, updates, n).None? { AbortIsFinal(rows, routeId, updates, n); }
    EveryUpdateKeepsRowsOk(rows, routeId, updates, n);
  }

  /** And at its end they are positive again. */
  lemma ReorderKeepsRowsOk(rows: seq<Checkpoint>, routeId: nat, items: seq<Item>)
    requires RowsOk(rows) && Positive(rows) && Reorder(rows, routeId, items).Reordered?
    ensures RowsOk(Reorder(rows, routeId, items).rows) && Positive(Reorder(rows, routeId, items).rows)
  {
    hide RowsOk, Updated, ReorderRefusal;
    TransactionKeepsRowsOk(rows, routeId, items, |TwoPhases(items)|);
    ReorderedRows(rows, routeId, items);
    assert forall i :: 0 <= i < |rows| ==> rows[i] in rows;
  }

  lemma {:induction false} SameUsable(rows: seq<Checkpoint>, other: seq<Checkpoint>, routeId: nat)
    requires |rows| == |other| && forall i :: 0 <= i < |rows| ==> Usable(rows[i], routeId) == Usable(other[i], routeId)
    ensures |Filtered(rows, routeId)| == |Filtered(other, routeId)|
  {
    if rows != [] { SameUsable(rows[..|rows| - 1], other[..|rows| - 1], routeId); }
  }

  /** A committed reorder numbers the active checkpoints 1..n - the first check of route activation - exactly when the
      request named no checkpoint twice, which the code does not check; then each has the sequence requested for it. */
  lemma ReorderNumbersExactly(rows: seq<Checkpoint>, routeId: nat, items: seq<Item>)
    requires RowsOk(rows) && Positive(rows) && Reorder(rows, routeId, items).Reordered?
    ensures Contiguous(ActiveOf(Reorder(rows, routeId, items).rows, routeId)) <==> NamesDistinct(items)
    ensures NamesDistinct(items) ==>
              forall item <- items :: exists c <- ActiveOf(Reorder(rows, routeId, items).rows, routeId) ::
                c.id == item.checkpointId && c.sequence == item.sequence
  {
    var r := Reorder(rows, routeId, items).rows;
    ReorderKeepsRowsOk(rows, routeId, items);
    ReorderedRows(rows, routeId, items);
    ReorderCommitsExactly(rows, routeId, items);
    NamesEveryActiveExactly(rows, routeId, items);
    ActiveOrdered(rows, routeId);
    ActiveOrdered(r, routeId);
    SameActiveCount(rows, r, routeId);
    var active, ordered := ActiveOf(rows, routeId), ActiveOf(r, routeId);
    if NamesDistinct(items) {
      NumberedFromOne(rows, r, routeId, items);
      forall item | item in items
        ensures exists c <- ordered :: c.id == item.checkpointId && c.sequence == item.sequence
      {
        var k :| 0 <= k < |items| && items[k] == item;
        assert HasRow(active, item.checkpointId);
        var c :| c in active && c.id == item.checkpointId;
        var i :| 0 <= i < |rows| && rows[i] == c;
        assert r[i] in r && r[i] in ordered;
      }
    } else {
      var c :| c in active && !Named(items, c.id);
      var i :| 0 <= i < |rows| && rows[i] == c;
      assert r[i] in r && r[i] in ordered;
      assert c.sequence > |items|;
      var k :| 0 <= k < |ordered| && ordered[k] == c;
    }
  }

  lemma SameActiveCount(rows: seq<Checkpoint>, r: seq<Checkpoint>, routeId: nat)
    requires |r| == |rows| && forall i :: 0 <= i < |rows| ==> r[i] == rows[i].(sequence := r[i].sequence)
    ensures |ActiveOf(r, routeId)| == |ActiveOf(rows, routeId)|
  {
    SameUsable(rows, r, routeId);
    SortedSorts(Filtered(rows, routeId), RowSequence);
    SortedSorts(Filtered(r, routeId), RowSequence);
  }

  lemma NumberedFromOne(rows: seq<Checkpoint>, r: seq<Checkpoint>, routeId: nat, items: seq<Item>)
    requires RowsOk(r) && |r| == |rows| && |ActiveOf(r, routeId)| == |items|
    requires forall i :: 0 <= i < |rows| ==> r[i] == rows[i].(sequence := r[i].sequence)
    requires forall i :: 0 <= i < |rows| && Named(items, rows[i].id) ==> 1 <= r[i].sequence <= |items|
    requires RowsOk(rows) && forall c <- ActiveOf(rows, routeId) :: Named(items, c.id)
    ensures Contiguous(ActiveOf(r, routeId))
  {
    ActiveOrdered(r, routeId);
    ActiveOrdered(rows, routeId);
    var ordered := ActiveOf(r, routeId);
    var sequences := seq(|ordered|, i requires 0 <= i < |ordered| => ordered[i].sequence);
    forall x | x in sequences ensures 1 <= x <= |sequences| {
      var k :| 0 <= k < |ordered| && ordered[k].sequence == x;
      assert ordered[k] in ordered;
      var i :| 0 <= i < |r| && r[i] == ordered[k];
      assert rows[i] in rows && rows[i] in ActiveOf(rows, routeId);
    }
    forall i, j | 0 <= i < j < |sequences| ensures sequences[i] < sequences[j] {
      assert RowSequence(ordered[i]) < RowSequence(ordered[j]);
    }
    forall k | 0 <= k < |ordered| ensures ordered[k].sequence == k + 1 {
      FillsRange(sequences, k);
    }
  }

  /** On a route that is already numbered 1..n a request that names a checkpoint twice never commits: the row it leaves
      out holds a sequence that is asked for. */
  lemma RepeatedNameAbortsWhenContiguous(rows: seq<Checkpoint>, routeId: nat, items: seq<Item>)
    requires RowsOk(rows) && Positive(rows) && ReorderRefusal(rows, routeId, items).None?
    requires Contiguous(ActiveOf(rows, routeId)) && !NamesDistinct(items)
    ensures Reorder(rows, routeId, items) == Refused(UniqueViolation)
  {
    NamesEveryActiveExactly(rows, routeId, items);
    ActiveOrdered(rows, routeId);
    var active := ActiveOf(rows, routeId);
    var c :| c in active && !Named(items, c.id);
    var k :| 0 <= k < |active| && active[k] == c;
    assert Obstructed(rows, routeId, items);
    ReorderCommitsExactly(rows, routeId, items);
  }

  /** Such a request does commit on a route with a gap: of two checkpoints at 1 and 3 the first is named for 1 and for
      2, and ends at 2 beside the other's 3, so the route no longer passes activation. */
  lemma RepeatedNameLeavesGap(a: Checkpoint, c: Checkpoint)
    requires a.id != c.id && Usable(a, 0) && Usable(c, 0) && a.sequence == 1 && c.sequence == 3
    ensures Reorder([a, c], 0, [Item(a.id, 1), Item(a.id, 2)]) == Reordered([a.(sequence := 2), c])
    ensures ActivationFailure([a.(sequence := 2), c], 0) == Some(SequenceGap)
  {
    hide Updated, ActiveOf, ReorderRefusal, TwoPhases, ActivationErrorBefore;
    var rows, items := [a, c], [Item(a.id, 1), Item(a.id, 2)];
    PairInOrder(a.(sequence := 2), c);
    RepeatedNameAccepted(a, c);
    assert !Named(items, c.id);
    assert !Obstructed(rows, 0, items) by { assert items[0] in items; }
    ReorderCommitsExactly(rows, 0, items);
    ReorderedRows(rows, 0, items);
    RepeatedNameLast(rows, items, a);
    assert Reorder(rows, 0, items).rows == [a.(sequence := 2), c];
  }

  lemma RepeatedNameAccepted(a: Checkpoint, c: Checkpoint)
    requires a.id != c.id && Usable(a, 0) && Usable(c, 0) && a.sequence == 1 && c.sequence == 3
    ensures ReorderRefusal([a, c], 0, [Item(a.id, 1), Item(a.id, 2)]).None?
  {
    hide ActiveOf;
    PairInOrder(a, c);
    var items := [Item(a.id, 1), Item(a.id, 2)];
    assert items[0] in items && items[1] in items;
    assert Includes(items, 1) && Includes(items, 2);
    assert HasRow([a, c], a.id) by { assert a in [a, c]; }
  }

  lemma RepeatedNameLast(rows: seq<Checkpoint>, items: seq<Item>, a: Checkpoint)
    requires rows != [] && rows[0] == a && items == [Item(a.id, 1), Item(a.id, 2)] && Reorder(rows, 0, items).Reordered?
    ensures |Reorder(rows, 0, items).rows| == |rows| && Reorder(rows, 0, items).rows[0].sequence == 2
  {
    hide ActiveOf, ReorderRefusal;
    var updates := TwoPhases(items);
    RowsAfter(rows, 0, updates, |updates|);
    assert updates[3] == Item(a.id, 2);
  }

  lemma PairInOrder(a: Checkpoint, c: Checkpoint)
    requires Usable(a, 0) && Usable(c, 0) && a.sequence < c.sequence
    ensures ActiveOf([a, c], 0) == [a, c]
    ensures a.sequence != 1 ==> ActivationFailure([a, c], 0) == Some(SequenceGap)
  {
    assert [a, c][..1] == [a] && [a][..0] == [];
    assert Filtered([a], 0) == [a];
    assert Filtered([a, c], 0) == [a, c];
    SortedIdentity([a, c], RowSequence);
    if a.sequence != 1 { NoFailureLater([a, c], 1); }
  }

  /** A deleted checkpoint that kept sequence 1 is enough to make every reorder of its route fail. */
  lemma DeletedRowObstructs(rows: seq<Checkpoint>, routeId: nat, items: seq<Item>, gone: Checkpoint)
    requires RowsOk(rows) && Positive(rows) && ReorderRefusal(rows, routeId, items).None?
    requires gone in rows && gone.routeId == routeId && gone.deleted && gone.sequence == 1 && items != []
    ensures Reorder(rows, routeId, items) == Refused(UniqueViolation)
  {
    ItemsOnRoute(rows, routeId, items);
    assert !Named(items, gone.id);
    assert Obstructed(rows, routeId, items);
    ReorderCommitsExactly(rows, routeId, items);
  }
}
