/** What `SerialIo::setBaudrate` computes, as a function of the device, the
    requested rate, the rate the line starts at and the operation counter,
    together with the properties of that procedure. The table walk is defined
    over any table and its properties are proved for any strictly increasing
    one; the driver's procedure is the walk over `Baudrates.Table`. */
module Negotiation {
  import opened Baudrates
  import opened SerialPort

  /** The result of one negotiation: whether it reported success, the rate the
      line is left at, the rate writes it made, and the operation counter after it. */
  datatype Outcome = Outcome(ok: bool, rate: uint32, calls: seq<SetCall>, ops: nat)

  /** The whole procedure: read the current rate (operation `ops`), then walk
      the baud-rate table. A failed read ends it with failure. */
  function Negotiate(d: Device, target: uint32, rate: uint32, ops: nat): (r: Outcome)
    ensures |r.calls| <= |Table|
  {
    if d.fails(ops) then Outcome(false, rate, [], ops + 1)
    else Walk(Table, d, target, 0, rate, ops + 1)
  }

  /** The walk over `table` from index `i`, with `current` the rate last read
      and `ops` the operation counter. At each entry: stop once the target is
      reached; skip an entry the line is already at or above while the target
      is above it; otherwise write the entry and read back the rate adopted.
      A failed write or read ends the walk with failure; running off the end
      of the table ends it with success whatever the rate. */
  function Walk(table: seq<uint32>, d: Device, target: uint32, i: nat, current: uint32, ops: nat): (r: Outcome)
    requires i <= |table|
    ensures |r.calls| <= |table| - i
    decreases |table| - i
  {
    if i == |table| || current == target then
      Outcome(true, current, [], ops)
    else if current >= table[i] && target > table[i] then
      Walk(table, d, target, i + 1, current, ops)
    else
      var call := SetCall(current, table[i]);
      if d.fails(ops) then
        Outcome(false, current, [call], ops + 1)
      else
        var adopted := d.adopt(current, table[i]);
        if d.fails(ops + 1) then
          Outcome(false, adopted, [call], ops + 2)
        else
          var rest := Walk(table, d, target, i + 1, adopted, ops + 2);
          Outcome(rest.ok, rest.rate, [call] + rest.calls, rest.ops)
  }

  /** The rates requested by a sequence of writes, in order. */
  function Requested(calls: seq<SetCall>): (r: seq<uint32>)
    ensures |r| == |calls|
    ensures forall k :: 0 <= k < |calls| ==> r[k] == calls[k].to
  {
    if calls == [] then [] else [calls[0].to] + Requested(calls[1..])
  }

  /** The entries of `table` from index `i` on that lie above `low` and at most `high`. */
  function StepsUp(table: seq<uint32>, i: nat, low: uint32, high: uint32): (r: seq<uint32>)
    decreases |table| - i
  {
    if i >= |table| then []
    else (if low < table[i] <= high then [table[i]] else []) + StepsUp(table, i + 1, low, high)
  }

  // ---------------------------------------------------------------------------
  // Which rates are written

  /** Every rate written in `calls` is an element of `s`. */
  ghost predicate WritesWithin(calls: seq<SetCall>, s: seq<uint32>)
  {
    forall k :: 0 <= k < |calls| ==> calls[k].to in s
  }

  /** The rates written in `calls` are strictly increasing. */
  ghost predicate WritesIncreasing(calls: seq<SetCall>)
  {
    forall k, l :: 0 <= k < l < |calls| ==> calls[k].to < calls[l].to
  }

  /** The walk from index `i` writes only entries of the table from `i` on. */
  lemma {:induction false} WalkCallsWithinTable(table: seq<uint32>, d: Device, target: uint32, i: nat, current: uint32, ops: nat)
    requires i <= |table|
    ensures WritesWithin(Walk(table, d, target, i, current, ops).calls, table[i..])
    decreases |table| - i
  {
    var r := Walk(table, d, target, i, current, ops);
    if i == |table| || current == target {
    } else if current >= table[i] && target > table[i] {
      WalkCallsWithinTable(table, d, target, i + 1, current, ops);
      forall k | 0 <= k < |r.calls|
        ensures r.calls[k].to in table[i..]
      {
        assert table[i + 1..] == table[i..][1..];
      }
    } else if d.fails(ops) || d.fails(ops + 1) {
    } else {
      var rest := Walk(table, d, target, i + 1, d.adopt(current, table[i]), ops + 2);
      WalkCallsWithinTable(table, d, target, i + 1, d.adopt(current, table[i]), ops + 2);
      assert r.calls == [SetCall(current, table[i])] + rest.calls;
      forall k | 0 <= k < |r.calls|
        ensures r.calls[k].to in table[i..]
      {
        if k > 0 {
          assert r.calls[k] == rest.calls[k - 1];
          assert table[i + 1..] == table[i..][1..];
        }
      }
    }
  }

  lemma AboveInTail(table: seq<uint32>, i: nat, x: uint32)
    requires StrictlyIncreasing(table) && i < |table| && x in table[i + 1..]
    ensures table[i] < x
  {
    var k :| 0 <= k < |table[i + 1..]| && table[i + 1..][k] == x;
    assert table[i + 1 + k] == x;
  }

  /** Over a strictly increasing table, the walk writes rates in strictly increasing order. */
  lemma {:induction false} WalkCallsIncreasing(table: seq<uint32>, d: Device, target: uint32, i: nat, current: uint32, ops: nat)
    requires StrictlyIncreasing(table) && i <= |table|
    ensures WritesIncreasing(Walk(table, d, target, i, current, ops).calls)
    decreases |table| - i
  {
    if i == |table| || current == target {
    } else if current >= table[i] && target > table[i] {
      WalkCallsIncreasing(table, d, target, i + 1, current, ops);
    } else if d.fails(ops) || d.fails(ops + 1) {
    } else {
      var adopted := d.adopt(current, table[i]);
      var rest := Walk(table, d, target, i + 1, adopted, ops + 2);
      WalkCallsIncreasing(table, d, target, i + 1, adopted, ops + 2);
      WalkCallsWithinTable(table, d, target, i + 1, adopted, ops + 2);
      var r := Walk(table, d, target, i, current, ops);
      assert r.calls == [SetCall(current, table[i])] + rest.calls;
      forall k, l | 0 <= k < l < |r.calls|
        ensures r.calls[k].to < r.calls[l].to
      {
        assert r.calls[l] == rest.calls[l - 1];
        if k == 0 {
          AboveInTail(table, i, rest.calls[l - 1].to);
        } else {
          assert r.calls[k] == rest.calls[k - 1];
        }
      }
    }
  }

  /** Every rate `setBaudrate` writes is a table entry, the rates written are
      strictly increasing, and there are at most 21 of them. */
  lemma CallsFromTable(d: Device, target: uint32, rate: uint32, ops: nat)
    ensures var r := Negotiate(d, target, rate, ops);
      |r.calls| <= 21 && WritesWithin(r.calls, Table) && WritesIncreasing(r.calls)
  {
    TableWellFormed();
    if !d.fails(ops) {
      WalkCallsWithinTable(Table, d, target, 0, rate, ops + 1);
      WalkCallsIncreasing(Table, d, target, 0, rate, ops + 1);
      assert Table[0..] == Table;
    }
  }

  /** No write in `calls` is to an entry the line was already at or above
      while `target` was above that entry: each write goes up from the rate
      in effect, or goes to an entry at or above the target. */
  ghost predicate SkipRespected(calls: seq<SetCall>, target: uint32)
  {
    forall k :: 0 <= k < |calls| ==> calls[k].from < calls[k].to || target <= calls[k].to
  }

  lemma {:induction false} WalkRespectsSkip(table: seq<uint32>, d: Device, target: uint32, i: nat, current: uint32, ops: nat)
    requires i <= |table|
    ensures SkipRespected(Walk(table, d, target, i, current, ops).calls, target)
    decreases |table| - i
  {
    if i == |table| || current == target {
    } else if current >= table[i] && target > table[i] {
      WalkRespectsSkip(table, d, target, i + 1, current, ops);
    } else if d.fails(ops) || d.fails(ops + 1) {
    } else {
      var adopted := d.adopt(current, table[i]);
      var rest := Walk(table, d, target, i + 1, adopted, ops + 2);
      WalkRespectsSkip(table, d, target, i + 1, adopted, ops + 2);
      assert Walk(table, d, target, i, current, ops).calls == [SetCall(current, table[i])] + rest.calls;
    }
  }

  /** An entry the line is already at or above, while the requested rate is
      above it, is never written by `setBaudrate`. */
  lemma CallsRespectSkip(d: Device, target: uint32, rate: uint32, ops: nat)
    ensures SkipRespected(Negotiate(d, target, rate, ops).calls, target)
  {
    if !d.fails(ops) {
      WalkRespectsSkip(Table, d, target, 0, rate, ops + 1);
    }
  }

  // ---------------------------------------------------------------------------
  // Failures

  /** The walk succeeds exactly when none of the operations it performs fails;
      when it fails, the failing operation is its last one, so no write follows
      it. Each write is followed by exactly one read, except a write that fails. */
  lemma {:induction false} WalkFailureIsFinal(table: seq<uint32>, d: Device, target: uint32, i: nat, current: uint32, ops: nat)
    requires i <= |table|
    ensures var r := Walk(table, d, target, i, current, ops);
      ops <= r.ops &&
      (r.ok <==> forall n :: ops <= n < r.ops ==> !d.fails(n)) &&
      (!r.ok ==> ops < r.ops && d.fails(r.ops - 1) && 0 < |r.calls| && ops + 2 * |r.calls| <= r.ops + 1) &&
      (!r.ok ==> forall n :: ops <= n < r.ops - 1 ==> !d.fails(n)) &&
      r.ops <= ops + 2 * |r.calls| &&
      (r.ok ==> r.ops == ops + 2 * |r.calls|)
    decreases |table| - i
  {
    if i == |table| || current == target {
    } else if current >= table[i] && target > table[i] {
      WalkFailureIsFinal(table, d, target, i + 1, current, ops);
    } else if d.fails(ops) || d.fails(ops + 1) {
    } else {
      WalkFailureIsFinal(table, d, target, i + 1, d.adopt(current, table[i]), ops + 2);
    }
  }

  /** `setBaudrate` returns true exactly when no read or write of the rate
      fails; a failure of the first read, of a write or of a re-read makes it
      return false at once, with that failure as its last operation. */
  lemma FailureIsFinal(d: Device, target: uint32, rate: uint32, ops: nat)
    ensures var r := Negotiate(d, target, rate, ops);
      ops < r.ops &&
      (r.ok <==> forall n :: ops <= n < r.ops ==> !d.fails(n)) &&
      (!r.ok ==> d.fails(r.ops - 1) && ops + 2 * |r.calls| <= r.ops) &&
      (!r.ok ==> forall n :: ops <= n < r.ops - 1 ==> !d.fails(n)) &&
      r.ops <= ops + 1 + 2 * |r.calls| &&
      (d.fails(ops) ==> !r.ok && r.calls == [] && r.rate == rate)
  {
    if !d.fails(ops) {
      WalkFailureIsFinal(Table, d, target, 0, rate, ops + 1);
    }
  }

  /** On a device where nothing fails, `setBaudrate` reports success, whatever
      rate the line ends at. */
  lemma NoFailureMeansSuccess(d: Device, target: uint32, rate: uint32, ops: nat)
    requires forall n :: !d.fails(n)
    ensures Negotiate(d, target, rate, ops).ok
  {
    FailureIsFinal(d, target, rate, ops);
  }

  /** When the line is already at the requested rate, nothing is written and
      the result is that of the first read. */
  lemma AlreadyAtTarget(d: Device, target: uint32, ops: nat)
    ensures var r := Negotiate(d, target, target, ops);
      r.calls == [] && r.rate == target && r.ok == !d.fails(ops) && r.ops == ops + 1
  {
  }

  // ---------------------------------------------------------------------------
  // An ideal device

  lemma {:induction false} StepsUpAboveHigh(table: seq<uint32>, i: nat, low: uint32, high: uint32)
    requires StrictlyIncreasing(table) && 0 < i <= |table| && high <= table[i - 1]
    ensures StepsUp(table, i, low, high) == []
    decreases |table| - i
  {
    if i < |table| {
      StepsUpAboveHigh(table, i + 1, low, high);
    }
  }

  lemma {:induction false} StepsUpLowIrrelevant(table: seq<uint32>, i: nat, low1: uint32, low2: uint32, high: uint32)
    requires StrictlyIncreasing(table) && 0 < i <= |table| && low1 <= table[i - 1] && low2 <= table[i - 1]
    ensures StepsUp(table, i, low1, high) == StepsUp(table, i, low2, high)
    decreases |table| - i
  {
    if i < |table| {
      StepsUpLowIrrelevant(table, i + 1, low1, low2, high);
    }
  }

  lemma {:induction false} WalkIdealReachesTarget(table: seq<uint32>, d: Device, t: nat, i: nat, current: uint32, ops: nat)
    requires Ideal(d) && StrictlyIncreasing(table) && i <= t < |table|
    ensures var r := Walk(table, d, table[t], i, current, ops);
      r.ok && r.rate == table[t] &&
      (current < table[t] ==> Requested(r.calls) == StepsUp(table, i, current, table[t])) &&
      (current > table[t] ==> r.calls == [SetCall(current, table[t])])
    decreases t - i
  {
    var target := table[t];
    if current == target {
    } else if i == t {
      assert !d.fails(ops) && !d.fails(ops + 1) && d.adopt(current, target) == target;
      var rest := Walk(table, d, target, i + 1, target, ops + 2);
      assert rest == Outcome(true, target, [], ops + 2);
      if current < target {
        StepsUpAboveHigh(table, i + 1, current, target);
      }
    } else {
      if current >= table[i] {
        WalkIdealReachesTarget(table, d, t, i + 1, current, ops);
      } else {
        assert !d.fails(ops) && !d.fails(ops + 1) && d.adopt(current, table[i]) == table[i];
        WalkIdealReachesTarget(table, d, t, i + 1, table[i], ops + 2);
        StepsUpLowIrrelevant(table, i + 1, current, table[i], target);
      }
    }
  }

  /** On an ideal device, a requested rate that is in the table is reached,
      from below or from above. Going up, the line steps through every table
      entry above its starting rate up to the target; going down, it jumps to
      the target in a single write. */
  lemma IdealReachesTarget(d: Device, target: uint32, rate: uint32, ops: nat)
    requires Ideal(d) && target in Table
    ensures var r := Negotiate(d, target, rate, ops);
      r.ok && r.rate == target &&
      (rate == target ==> r.calls == []) &&
      (rate < target ==> Requested(r.calls) == StepsUp(Table, 0, rate, target)) &&
      (rate > target ==> r.calls == [SetCall(rate, target)])
  {
    TableWellFormed();
    var t :| 0 <= t < |Table| && Table[t] == target;
    assert !d.fails(ops);
    WalkIdealReachesTarget(Table, d, t, 0, rate, ops + 1);
  }

  lemma {:induction false} WalkBestEffortAboveTable(table: seq<uint32>, d: Device, target: uint32, i: nat, current: uint32, ops: nat)
    requires Ideal(d) && StrictlyIncreasing(table) && 0 < |table| && table[|table| - 1] < target
    requires current != target && i <= |table|
    ensures var last := table[|table| - 1];
      var r := Walk(table, d, target, i, current, ops);
      r.ok && r.rate == (if i < |table| && current < last then last else current)
    decreases |table| - i
  {
    if i < |table| {
      if current >= table[i] {
        WalkBestEffortAboveTable(table, d, target, i + 1, current, ops);
      } else {
        assert !d.fails(ops) && !d.fails(ops + 1) && d.adopt(current, table[i]) == table[i];
        WalkBestEffortAboveTable(table, d, target, i + 1, table[i], ops + 2);
      }
    }
  }

  /** A requested rate above the whole table cannot be reached, yet on an
      ideal device `setBaudrate` still reports success: the line ends at the
      largest table entry, or stays where it was if it started higher. */
  lemma BestEffortAboveTable(d: Device, target: uint32, rate: uint32, ops: nat)
    requires Ideal(d) && Last < target && rate != target
    ensures var r := Negotiate(d, target, rate, ops);
      r.ok && r.rate != target && r.rate == (if rate < Last then Last else rate)
  {
    TableWellFormed();
    assert !d.fails(ops);
    WalkBestEffortAboveTable(Table, d, target, 0, rate, ops + 1);
  }

  /** On an ideal device, stepping up from 9600 baud to 115200 baud writes
      19200, 38400, 57600 and 115200, in that order (9600 itself is skipped),
      and reports success. */
  lemma IdealStepUpFrom9600(d: Device, ops: nat)
    requires Ideal(d)
    ensures var r := Negotiate(d, 115200, 9600, ops);
      r.ok && r.rate == 115200 && Requested(r.calls) == [19200, 38400, 57600, 115200]
  {
    IdealReachesTarget(d, 115200, 9600, ops);
  }

  // ---------------------------------------------------------------------------
  // A requested rate that is not in the table

  lemma {:induction false} WalkOvershoots(table: seq<uint32>, d: Device, target: uint32, i: nat, current: uint32, ops: nat)
    requires Ideal(d) && StrictlyIncreasing(table)
    requires target !in table && i < |table| && target < table[|table| - 1] && current != target
    ensures var r := Walk(table, d, target, i, current, ops);
      r.ok && r.rate == table[|table| - 1]
    decreases |table| - i
  {
    if current >= table[i] && target > table[i] {
      WalkOvershoots(table, d, target, i + 1, current, ops);
    } else {
      assert !d.fails(ops) && !d.fails(ops + 1) && d.adopt(current, table[i]) == table[i];
      if i + 1 < |table| {
        assert table[i] != target;
        WalkOvershoots(table, d, target, i + 1, table[i], ops + 2);
      }
    }
  }

  /** A requested rate below 4000000 that is not in the table is never
      matched, so on an ideal device the walk keeps writing until the table
      runs out: the line ends at 4000000, far above the request, and the
      result is still true. */
  lemma OvershootOffTable(d: Device, target: uint32, rate: uint32, ops: nat)
    requires Ideal(d) && target !in Table && target < Last && rate != target
    ensures var r := Negotiate(d, target, rate, ops);
      r.ok && r.rate == Last && r.rate != target
  {
    TableWellFormed();
    assert !d.fails(ops);
    WalkOvershoots(Table, d, target, 0, rate, ops + 1);
  }

  /** Asking for 100000 baud from 9600 baud ends at 4000000 baud. */
  lemma OvershootFrom9600To100000(d: Device, ops: nat)
    requires Ideal(d)
    ensures var r := Negotiate(d, 100000, 9600, ops);
      r.ok && r.rate == 4000000
  {
    OvershootOffTable(d, 100000, 9600, ops);
  }

  /** The walk with a stopping rule that serves a rate between two entries:
      it is `Walk`, except that it also stops after a successful write of an
      entry at or above the target. */
  function WalkToCeiling(table: seq<uint32>, d: Device, target: uint32, i: nat, current: uint32, ops: nat): (r: Outcome)
    requires i <= |table|
    ensures |r.calls| <= |table| - i
    decreases |table| - i
  {
    if i == |table| || current == target then
      Outcome(true, current, [], ops)
    else if current >= table[i] && target > table[i] then
      WalkToCeiling(table, d, target, i + 1, current, ops)
    else
      var call := SetCall(current, table[i]);
      if d.fails(ops) then
        Outcome(false, current, [call], ops + 1)
      else
        var adopted := d.adopt(current, table[i]);
        if d.fails(ops + 1) then
          Outcome(false, adopted, [call], ops + 2)
        else if target <= table[i] then
          Outcome(true, adopted, [call], ops + 2)
        else
          var rest := WalkToCeiling(table, d, target, i + 1, adopted, ops + 2);
          Outcome(rest.ok, rest.rate, [call] + rest.calls, rest.ops)
  }

  /** The procedure of `setBaudrate` with `WalkToCeiling` in place of `Walk`. */
  function NegotiateToCeiling(d: Device, target: uint32, rate: uint32, ops: nat): (r: Outcome)
    ensures |r.calls| <= |Table|
  {
    if d.fails(ops) then Outcome(false, rate, [], ops + 1)
    else WalkToCeiling(Table, d, target, 0, rate, ops + 1)
  }

  lemma {:induction false} WalkToCeilingReachesCeiling(table: seq<uint32>, d: Device, target: uint32, i: nat, current: uint32, ops: nat)
    requires Ideal(d) && StrictlyIncreasing(table)
    requires i < |table| && target <= table[|table| - 1] && current != target
    requires forall k :: 0 <= k < i ==> table[k] < target
    ensures var r := WalkToCeiling(table, d, target, i, current, ops);
      r.ok && r.rate in table && target <= r.rate &&
      forall k :: 0 <= k < |table| && target <= table[k] ==> r.rate <= table[k]
    decreases |table| - i
  {
    if current >= table[i] && target > table[i] {
      WalkToCeilingReachesCeiling(table, d, target, i + 1, current, ops);
    } else {
      assert !d.fails(ops) && !d.fails(ops + 1) && d.adopt(current, table[i]) == table[i];
      if target > table[i] {
        WalkToCeilingReachesCeiling(table, d, target, i + 1, table[i], ops + 2);
      }
    }
  }

  /** With the corrected stopping rule, on an ideal device any requested rate
      up to 4000000 ends at the smallest table entry at or above it. */
  lemma ReachesCeiling(d: Device, target: uint32, rate: uint32, ops: nat)
    requires Ideal(d) && target <= Last && rate != target
    ensures var r := NegotiateToCeiling(d, target, rate, ops);
      r.ok && r.rate in Table && target <= r.rate &&
      forall b :: b in Table && target <= b ==> r.rate <= b
  {
    TableWellFormed();
    assert !d.fails(ops);
    WalkToCeilingReachesCeiling(Table, d, target, 0, rate, ops + 1);
  }

  /** For a requested rate that is in the table, the corrected procedure ends
      where `setBaudrate` does: at the requested rate. */
  lemma CeilingAgreesOnTableRates(d: Device, target: uint32, rate: uint32, ops: nat)
    requires Ideal(d) && target in Table
    ensures NegotiateToCeiling(d, target, rate, ops).rate == target
    ensures Negotiate(d, target, rate, ops).rate == target
  {
    IdealReachesTarget(d, target, rate, ops);
    if rate != target {
      TableWellFormed();
      ReachesCeiling(d, target, rate, ops);
    }
  }
}
