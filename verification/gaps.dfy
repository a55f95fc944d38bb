/** The availability computation of the reservation service: the rows found
    in the query window are turned into date pairs, sorted stably by start,
    and folded into a list of free blocks, followed by an optional trailing
    block that runs to the end of the window.

    The fold is modelled as written, including its quirks: a gap block starts
    one day after the previous block ends (which is the start of an earlier
    booking, not one day after that booking ends), the first block is emitted
    even when it comes out inverted, and the trailing block needs a strictly
    later window end. */
module Gaps {
  import opened Records

  // ---------------------------------------------------------------------
  // Stable sort by start date (`sortedBy { it.fromDate }`)

  /** Blocks in non-decreasing order of `fromDate`. */
  predicate SortedByFrom(xs: seq<Availability>)
  {
    forall i, j :: 0 <= i < j < |xs| ==> xs[i].fromDate <= xs[j].fromDate
  }

  /** Puts `b` in front of the first element that does not start before it. */
  function Insert(b: Availability, xs: seq<Availability>): (r: seq<Availability>)
    ensures |r| == |xs| + 1
  {
    if xs == [] || b.fromDate <= xs[0].fromDate then [b] + xs
    else [xs[0]] + Insert(b, xs[1..])
  }

  /** Inserting keeps every element, as a multiset, and adds `b`. */
  lemma {:induction false} InsertPermutes(b: Availability, xs: seq<Availability>)
    ensures multiset(Insert(b, xs)) == multiset(xs) + multiset{b}
  {
    if xs != [] && b.fromDate > xs[0].fromDate {
      InsertPermutes(b, xs[1..]);
      assert xs == [xs[0]] + xs[1..];
    }
  }

  /** Inserting puts `b` or the old head first, and keeps a sorted list
      sorted. */
  lemma {:induction false} InsertSorts(b: Availability, xs: seq<Availability>)
    ensures var r := Insert(b, xs);
            && (r[0] == b || (xs != [] && r[0] == xs[0]))
            && (SortedByFrom(xs) ==> SortedByFrom(r))
  {
    if xs != [] && b.fromDate > xs[0].fromDate && SortedByFrom(xs) {
      InsertSorts(b, xs[1..]);
      InsertPermutes(b, xs[1..]);
      var r := Insert(b, xs);
      var t := Insert(b, xs[1..]);
      assert r == [xs[0]] + t;
      forall j | 0 <= j < |t| ensures xs[0].fromDate <= t[j].fromDate {
        if t[j] != b {
          assert t[j] in multiset(t);
          assert t[j] in multiset(xs[1..]);
          var k :| 0 <= k < |xs[1..]| && xs[1..][k] == t[j];
          assert xs[k + 1] == t[j];
        }
      }
      forall i, j | 0 <= i < j < |r| ensures r[i].fromDate <= r[j].fromDate {
        assert r[j] == t[j - 1];
        if i > 0 {
          assert r[i] == t[i - 1];
        }
      }
    }
  }

  /** Insertion sort by `fromDate`. */
  function SortByFrom(xs: seq<Availability>): (r: seq<Availability>)
    ensures |r| == |xs|
  {
    if xs == [] then []
    else Insert(xs[0], SortByFrom(xs[1..]))
  }

  /** The sort returns a permutation of its input, ordered by `fromDate`. */
  lemma {:induction false} SortSorts(xs: seq<Availability>)
    ensures multiset(SortByFrom(xs)) == multiset(xs)
    ensures SortedByFrom(SortByFrom(xs))
  {
    if xs != [] {
      SortSorts(xs[1..]);
      InsertPermutes(xs[0], SortByFrom(xs[1..]));
      InsertSorts(xs[0], SortByFrom(xs[1..]));
      assert xs == [xs[0]] + xs[1..];
    }
  }

  /** Sorting a list that is already in order leaves it as it is. */
  lemma {:induction false} SortOfSorted(xs: seq<Availability>)
    requires SortedByFrom(xs)
    ensures SortByFrom(xs) == xs
  {
    if xs != [] {
      assert SortedByFrom(xs[1..]);
      SortOfSorted(xs[1..]);
      assert xs == [xs[0]] + xs[1..];
    }
  }

  /** The blocks of `xs` that start at `key`, in their order in `xs`. */
  function StartingAt(xs: seq<Availability>, key: int): seq<Availability>
  {
    if xs == [] then []
    else (if xs[0].fromDate == key then [xs[0]] else []) + StartingAt(xs[1..], key)
  }

  lemma {:induction false} StartingAtConcat(xs: seq<Availability>, ys: seq<Availability>, key: int)
    ensures StartingAt(xs + ys, key) == StartingAt(xs, key) + StartingAt(ys, key)
  {
    if xs == [] {
      assert xs + ys == ys;
    } else {
      var head := if xs[0].fromDate == key then [xs[0]] else [];
      assert (xs + ys)[0] == xs[0];
      assert (xs + ys)[1..] == xs[1..] + ys;
      assert StartingAt(xs + ys, key) == head + StartingAt(xs[1..] + ys, key);
      StartingAtConcat(xs[1..], ys, key);
      assert StartingAt(xs, key) == head + StartingAt(xs[1..], key);
    }
  }

  /** Inserting `b` puts it ahead of every element with the same start. */
  lemma {:induction false} InsertIsStable(b: Availability, xs: seq<Availability>, key: int)
    ensures StartingAt(Insert(b, xs), key) == StartingAt([b], key) + StartingAt(xs, key)
  {
    if xs == [] || b.fromDate <= xs[0].fromDate {
      StartingAtConcat([b], xs, key);
    } else {
      StartingAtConcat([xs[0]], Insert(b, xs[1..]), key);
      InsertIsStable(b, xs[1..], key);
      StartingAtConcat([xs[0]], xs[1..], key);
      assert [xs[0]] + xs[1..] == xs;
    }
  }

  /** The sort is stable: for every start date, the blocks starting then keep
      their original relative order. Together with sortedness and the
      multiset equality this pins the sorted list down completely. */
  lemma {:induction false} SortIsStable(xs: seq<Availability>, key: int)
    ensures StartingAt(SortByFrom(xs), key) == StartingAt(xs, key)
  {
    if xs != [] {
      InsertIsStable(xs[0], SortByFrom(xs[1..]), key);
      SortIsStable(xs[1..], key);
      StartingAtConcat([xs[0]], xs[1..], key);
      assert [xs[0]] + xs[1..] == xs;
    }
  }

  /** The first sorted element has the earliest start of all the input, the
      last one the latest, and both come from the input. */
  lemma SortedEnds(xs: seq<Availability>)
    requires xs != []
    ensures var s := SortByFrom(xs);
            && s != [] && s[0] in xs && s[|s| - 1] in xs
            && forall i :: 0 <= i < |xs| ==> s[0].fromDate <= xs[i].fromDate <= s[|s| - 1].fromDate
  {
    var s := SortByFrom(xs);
    SortSorts(xs);
    assert s[0] in multiset(s) && s[|s| - 1] in multiset(s);
    forall i | 0 <= i < |xs|
      ensures s[0].fromDate <= xs[i].fromDate <= s[|s| - 1].fromDate
    {
      assert xs[i] in multiset(xs);
      var j :| 0 <= j < |s| && s[j] == xs[i];
    }
  }

  // ---------------------------------------------------------------------
  // The fold

  /** One pass of the `forEach` body. With no block yet, the first block runs
      from the window start to the day before the booking. Otherwise, with
      `last` the last block at the start of the pass: a gap block is added if
      the booking starts more than a day after `last` ends, and a second block
      if the booking ends more than a day before `last` starts. */
  function Step(blocks: seq<Availability>, res: Availability, rangeFrom: int): seq<Availability>
  {
    if blocks == [] then [Availability(rangeFrom, res.fromDate - DAY)]
    else
      var last := blocks[|blocks| - 1];
      var gap := if last.toDate + DAY < res.fromDate
                 then [Availability(last.toDate + DAY, res.fromDate - DAY)] else [];
      var behind := if last.fromDate - DAY > res.toDate
                    then [Availability(res.toDate + DAY, last.fromDate - DAY)] else [];
      blocks + gap + behind
  }

  /** A pass only appends, at most two blocks. The first pass adds one block
      from the window start to the day before the booking; a later pass adds
      nothing exactly when the booking starts no later than the day after the
      last block ends and ends no earlier than the day before it starts. */
  lemma StepAdds(blocks: seq<Availability>, res: Availability, rangeFrom: int)
    ensures var r := Step(blocks, res, rangeFrom);
            |blocks| <= |r| <= |blocks| + 2 && r[..|blocks|] == blocks
    ensures var r := Step(blocks, res, rangeFrom);
            blocks == [] ==> |r| == 1 && r[0].fromDate == rangeFrom && r[0].toDate + DAY == res.fromDate
    ensures var r := Step(blocks, res, rangeFrom);
            blocks != [] ==>
              var last := blocks[|blocks| - 1];
              (res.fromDate <= last.toDate + DAY && res.toDate >= last.fromDate - DAY <==> r == blocks)
  {
  }

  /** The `forEach` over the sorted bookings; blocks are only ever appended. */
  function Fold(blocks: seq<Availability>, rest: seq<Availability>, rangeFrom: int): (r: seq<Availability>)
    ensures |blocks| <= |r| && r[..|blocks|] == blocks
    ensures rest != [] ==> r != []
    decreases |rest|
  {
    if rest == [] then blocks
    else
      var next := Step(blocks, rest[0], rangeFrom);
      assert next[..|blocks|] == blocks;
      Fold(next, rest[1..], rangeFrom)
  }

  /** The blocks the fold emits for the bookings `found`. */
  function Body(found: seq<Availability>, rangeFrom: int): seq<Availability>
  {
    Fold([], SortByFrom(found), rangeFrom)
  }

  /** `getAvailability` after the query: one block for the whole window when
      nothing was found; otherwise the fold's blocks, then a trailing block
      from one day after the later of the last booking's end and the last
      block's end, kept only when that is strictly before the window end. */
  function ComputeAvailability(found: seq<Availability>, rangeFrom: int, rangeTo: int): (r: seq<Availability>)
    ensures found == [] ==> r == [Availability(rangeFrom, rangeTo)]
    ensures r != [] && r[0].fromDate == rangeFrom
    ensures found != [] ==>
      && (forall i :: 0 <= i < |found| ==> r[0].toDate + DAY <= found[i].fromDate)
      && (exists i :: 0 <= i < |found| && r[0].toDate + DAY == found[i].fromDate)
  {
    var sorted := SortByFrom(found);
    if sorted == [] then
      [Availability(rangeFrom, rangeTo)]
    else
      var body := Fold([], sorted, rangeFrom);
      assert body[..1] == Step([], sorted[0], rangeFrom);
      assert body[0] == Availability(rangeFrom, sorted[0].fromDate - DAY);
      SortedEnds(found);
      var lastRes := sorted[|sorted| - 1];
      var lastBlock := body[|body| - 1];
      var lastRangeFrom := if lastRes.toDate > lastBlock.toDate then lastRes.toDate + DAY
                           else lastBlock.toDate + DAY;
      if lastRangeFrom < rangeTo then body + [Availability(lastRangeFrom, rangeTo)] else body
  }

  // ---------------------------------------------------------------------
  // What the fold produces

  /** Contained bookings with ordered dates: each starts inside the window,
      as the range query guarantees, and none ends before it starts, which
      the query does not guarantee (the store accepts such rows). */
  predicate Proper(xs: seq<Availability>, rangeFrom: int)
  {
    forall i :: 0 <= i < |xs| ==> rangeFrom <= xs[i].fromDate <= xs[i].toDate
  }

  lemma ProperSorted(xs: seq<Availability>, rangeFrom: int)
    requires Proper(xs, rangeFrom)
    ensures Proper(SortByFrom(xs), rangeFrom)
  {
    var s := SortByFrom(xs);
    SortSorts(xs);
    forall i | 0 <= i < |s|
      ensures rangeFrom <= s[i].fromDate <= s[i].toDate
    {
      assert s[i] in multiset(s);
      assert s[i] in multiset(xs);
      var j :| 0 <= j < |xs| && xs[j] == s[i];
    }
  }

  /** The start dates of the bookings in `xs`. */
  function Starts(xs: seq<Availability>): set<int>
  {
    set i | 0 <= i < |xs| :: xs[i].fromDate
  }

  /** The shape the fold keeps: the blocks begin at the window start, each
      later block starts the day after its predecessor ends and ends strictly
      later, every block ends the day before some booking in `starts` begins,
      and the last block ends the day before `m`, the latest start seen. */
  ghost predicate Tiled(blocks: seq<Availability>, rangeFrom: int, m: int, starts: set<int>)
  {
    && blocks != []
    && blocks[0].fromDate == rangeFrom
    && blocks[|blocks| - 1].toDate + DAY == m
    && blocks[|blocks| - 1].fromDate <= m
    && (forall i :: 0 < i < |blocks| ==>
          blocks[i].fromDate == blocks[i - 1].toDate + DAY && blocks[i - 1].toDate < blocks[i].toDate)
    && (forall i :: 0 <= i < |blocks| ==> blocks[i].toDate + DAY in starts)
  }

  /** Whether the second `if` of the loop body adds a block at some pass. */
  predicate BehindBranchFires(blocks: seq<Availability>, rest: seq<Availability>, rangeFrom: int)
    decreases |rest|
  {
    && rest != []
    && (|| (blocks != [] && blocks[|blocks| - 1].fromDate - DAY > rest[0].toDate)
        || BehindBranchFires(Step(blocks, rest[0], rangeFrom), rest[1..], rangeFrom))
  }

  /** One pass over a booking that starts no earlier than `m` keeps the shape,
      and its second `if` adds nothing. */
  lemma StepTiles(blocks: seq<Availability>, res: Availability, rangeFrom: int, m: int, starts: set<int>)
    requires Tiled(blocks, rangeFrom, m, starts)
    requires m <= res.fromDate <= res.toDate
    ensures !(blocks[|blocks| - 1].fromDate - DAY > res.toDate)
    ensures Tiled(Step(blocks, res, rangeFrom), rangeFrom, res.fromDate, starts + {res.fromDate})
  {
    var last := blocks[|blocks| - 1];
    var next := Step(blocks, res, rangeFrom);
    if last.toDate + DAY < res.fromDate {
      assert next == blocks + [Availability(last.toDate + DAY, res.fromDate - DAY)];
    } else {
      assert next == blocks;
    }
  }

  lemma StartsCons(xs: seq<Availability>)
    requires xs != []
    ensures Starts(xs) == {xs[0].fromDate} + Starts(xs[1..])
  {
    assert forall i :: 0 <= i < |xs[1..]| ==> xs[1..][i] == xs[i + 1];
  }

  lemma SortedTail(xs: seq<Availability>, rangeFrom: int)
    requires xs != [] && SortedByFrom(xs) && Proper(xs, rangeFrom)
    ensures SortedByFrom(xs[1..]) && Proper(xs[1..], rangeFrom)
    ensures xs[0].fromDate <= xs[0].toDate
    ensures forall i :: 0 <= i < |xs[1..]| ==> xs[0].fromDate <= xs[1..][i].fromDate
  {
  }

  /** The whole fold keeps the shape when the remaining bookings are sorted,
      proper and start no earlier than `m`, and the second `if` never adds a
      block. */
  lemma {:induction false} FoldTiles(blocks: seq<Availability>, rest: seq<Availability>, rangeFrom: int, m: int, starts: set<int>)
    requires Tiled(blocks, rangeFrom, m, starts)
    requires SortedByFrom(rest) && Proper(rest, rangeFrom)
    requires forall i :: 0 <= i < |rest| ==> m <= rest[i].fromDate
    ensures Tiled(Fold(blocks, rest, rangeFrom), rangeFrom,
                  if rest == [] then m else rest[|rest| - 1].fromDate, starts + Starts(rest))
    ensures !BehindBranchFires(blocks, rest, rangeFrom)
    decreases |rest|
  {
    if rest == [] {
      assert Starts(rest) == {};
      assert starts + Starts(rest) == starts;
    } else {
      StepTiles(blocks, rest[0], rangeFrom, m, starts);
      var next := Step(blocks, rest[0], rangeFrom);
      var tail := rest[1..];
      SortedTail(rest, rangeFrom);
      FoldTiles(next, tail, rangeFrom, rest[0].fromDate, starts + {rest[0].fromDate});
      StartsCons(rest);
      assert starts + {rest[0].fromDate} + Starts(tail) == starts + Starts(rest);
      assert Fold(blocks, rest, rangeFrom) == Fold(next, tail, rangeFrom);
      if tail != [] {
        assert tail[|tail| - 1] == rest[|rest| - 1];
      }
    }
  }

  /** The ordered-dates premise is needed: the store does not check it, and
      with a booking that ends before it starts the second `if` does add a
      block. Window start 0, bookings `[5, 5]`, `[20, 20]`, `[20, 1]` (in
      days): at the third pass the last block is `[5, 19]`, which starts more
      than a day after the booking ends. */
  lemma BehindBranchFiresOnInvertedBooking()
    ensures var found := [Availability(5 * DAY, 5 * DAY), Availability(20 * DAY, 20 * DAY),
                          Availability(20 * DAY, DAY)];
            BehindBranchFires([], SortByFrom(found), 0)
  {
    var x, y, z := Availability(5 * DAY, 5 * DAY), Availability(20 * DAY, 20 * DAY), Availability(20 * DAY, DAY);
    SortOfSorted([x, y, z]);
    var b1 := Step([], x, 0);
    assert b1 == [Availability(0, 4 * DAY)];
    var b2 := Step(b1, y, 0);
    assert b2 == [Availability(0, 4 * DAY), Availability(5 * DAY, 19 * DAY)];
    assert BehindBranchFires(b2, [z], 0);
    assert [x, y, z][1..][1..] == [z];
    assert BehindBranchFires(b1, [y, z], 0);
  }

  /** The first pass produces the shape from nothing. */
  lemma FirstStepTiles(res: Availability, rangeFrom: int)
    requires rangeFrom <= res.fromDate
    ensures Tiled(Step([], res, rangeFrom), rangeFrom, res.fromDate, {res.fromDate})
  {
  }

  /** For contained bookings with ordered dates, the second `if` of the
      loop body never adds a block. */
  lemma BehindBranchIsDead(found: seq<Availability>, rangeFrom: int)
    requires Proper(found, rangeFrom)
    ensures !BehindBranchFires([], SortByFrom(found), rangeFrom)
  {
    var s := SortByFrom(found);
    ProperSorted(found, rangeFrom);
    SortSorts(found);
    if s != [] {
      FirstStepTiles(s[0], rangeFrom);
      FoldTiles(Step([], s[0], rangeFrom), s[1..], rangeFrom, s[0].fromDate, {s[0].fromDate});
    }
  }

  /** Sorting keeps the set of start dates. */
  lemma StartsSorted(xs: seq<Availability>)
    ensures Starts(SortByFrom(xs)) == Starts(xs)
  {
    var s := SortByFrom(xs);
    SortSorts(xs);
    forall x | x in Starts(s) ensures x in Starts(xs) {
      var i :| 0 <= i < |s| && s[i].fromDate == x;
      assert s[i] in multiset(xs);
    }
    forall x | x in Starts(xs) ensures x in Starts(s) {
      var i :| 0 <= i < |xs| && xs[i].fromDate == x;
      assert xs[i] in multiset(s);
    }
  }

  /** The booking the sorted list ends with. */
  function LastSorted(found: seq<Availability>): Availability
    requires found != []
  {
    var s := SortByFrom(found);
    s[|s| - 1]
  }

  /** The fold's blocks for proper bookings have the tiled shape, ending the
      day before the last sorted booking starts. */
  lemma BodyTiles(found: seq<Availability>, rangeFrom: int)
    requires found != [] && Proper(found, rangeFrom)
    ensures var s := SortByFrom(found);
            s != [] && Tiled(Body(found, rangeFrom), rangeFrom, s[|s| - 1].fromDate, Starts(found))
  {
    var s := SortByFrom(found);
    ProperSorted(found, rangeFrom);
    SortSorts(found);
    FirstStepTiles(s[0], rangeFrom);
    SortedTail(s, rangeFrom);
    FoldTiles(Step([], s[0], rangeFrom), s[1..], rangeFrom, s[0].fromDate, {s[0].fromDate});
    StartsCons(s);
    StartsSorted(found);
    if |s| > 1 {
      assert s[1..][|s[1..]| - 1] == s[|s| - 1];
    }
  }

  /** The fold's blocks for contained bookings with ordered dates: they
      start at the window start and follow one another without a gap (each
      starts the day after the previous ends), their ends strictly increase,
      each ends the day before some booking starts, and the last ends the day
      before the latest start of all. */
  lemma BodyShape(found: seq<Availability>, rangeFrom: int)
    requires found != [] && Proper(found, rangeFrom)
    ensures Body(found, rangeFrom) != [] && Body(found, rangeFrom)[0].fromDate == rangeFrom
    ensures var body := Body(found, rangeFrom);
            forall i :: 0 < i < |body| ==>
              body[i].fromDate == body[i - 1].toDate + DAY && body[i - 1].toDate < body[i].toDate
    ensures var body := Body(found, rangeFrom);
            forall i :: 0 <= i < |body| ==> body[i].toDate + DAY in Starts(found)
    ensures var body := Body(found, rangeFrom);
            body[|body| - 1].toDate + DAY == LastSorted(found).fromDate
    ensures forall i :: 0 <= i < |found| ==> found[i].fromDate <= LastSorted(found).fromDate
  {
    BodyTiles(found, rangeFrom);
    SortedEnds(found);
  }

  /** For contained bookings with ordered dates, the trailing block runs
      from the day after the end of the last booking in sorted order to the
      window end, and exists exactly when that day is before the window end:
      the last block never reaches past that booking. */
  lemma TrailingAfterLastBooking(found: seq<Availability>, rangeFrom: int, rangeTo: int)
    requires found != [] && Proper(found, rangeFrom)
    ensures var lastRes := LastSorted(found);
            ComputeAvailability(found, rangeFrom, rangeTo)
              == Body(found, rangeFrom)
                 + (if lastRes.toDate + DAY < rangeTo then [Availability(lastRes.toDate + DAY, rangeTo)] else [])
  {
    var s := SortByFrom(found);
    BodyTiles(found, rangeFrom);
    ProperSorted(found, rangeFrom);
    var body := Body(found, rangeFrom);
    assert body[|body| - 1].toDate < s[|s| - 1].toDate;
    TrailingBlockRule(found, rangeFrom, rangeTo);
  }

  /** Ends that increase from each block to the next are bounded by the last
      block's end. */
  lemma {:induction false} EndsBelowLast(blocks: seq<Availability>, n: nat)
    requires n <= |blocks|
    requires forall i :: 0 < i < |blocks| ==> blocks[i - 1].toDate < blocks[i].toDate
    ensures forall i :: |blocks| - n <= i < |blocks| ==> blocks[i].toDate <= blocks[|blocks| - 1].toDate
    decreases n
  {
    if n > 1 {
      EndsBelowLast(blocks, n - 1);
      var i := |blocks| - n;
      assert blocks[i].toDate < blocks[i + 1].toDate;
    }
  }

  /** The strict `<` of the trailing rule drops the window's last day: when
      no booking reaches the window end and the last booking in sorted order
      ends the day before it, no trailing block is added, and no block reaches
      the window end although that day is free. */
  lemma LastDayUncovered(found: seq<Availability>, rangeFrom: int, rangeTo: int)
    requires found != [] && Proper(found, rangeFrom)
    requires forall i :: 0 <= i < |found| ==> found[i].toDate < rangeTo
    requires LastSorted(found).toDate + DAY == rangeTo
    ensures var r := ComputeAvailability(found, rangeFrom, rangeTo);
            && r == Body(found, rangeFrom)
            && forall i :: 0 <= i < |r| ==> r[i].toDate < rangeTo
  {
    TrailingAfterLastBooking(found, rangeFrom, rangeTo);
    BodyShape(found, rangeFrom);
    ProperSorted(found, rangeFrom);
    var body := Body(found, rangeFrom);
    EndsBelowLast(body, |body|);
  }

  /** The trailing rule as written, for any bookings: a block is appended only
      when one day after the later of the last sorted booking's end and the
      last emitted block's end is strictly before the window end, and it
      always ends at the window end. */
  lemma TrailingBlockRule(found: seq<Availability>, rangeFrom: int, rangeTo: int)
    requires found != []
    ensures var body := Body(found, rangeFrom);
            var s := SortByFrom(found);
            var later := if s[|s| - 1].toDate > body[|body| - 1].toDate then s[|s| - 1].toDate
                         else body[|body| - 1].toDate;
            && s != [] && body != []
            && ComputeAvailability(found, rangeFrom, rangeTo)
                 == body + (if later + DAY < rangeTo then [Availability(later + DAY, rangeTo)] else [])
  {
    SortedEnds(found);
  }

  // ---------------------------------------------------------------------
  // Particular inputs

  /** One booking `[a, b]`: the block before it, and the block after it when
      the day after its end (or after the first block, if that is later) is
      strictly before the window end. */
  lemma SingleBooking(a: int, b: int, rangeFrom: int, rangeTo: int)
    ensures var after := (if b > a - DAY then b else a - DAY) + DAY;
            ComputeAvailability([Availability(a, b)], rangeFrom, rangeTo)
              == [Availability(rangeFrom, a - DAY)]
                 + (if after < rangeTo then [Availability(after, rangeTo)] else [])
  {
    var x := Availability(a, b);
    assert SortByFrom([x]) == Insert(x, SortByFrom([])) == [x];
    assert Fold([], [x], rangeFrom) == Fold(Step([], x, rangeFrom), [], rangeFrom) == [Availability(rangeFrom, a - DAY)];
  }

  /** The service test's case: window `[w, w + 5 days]`, booking
      `[w + 2 days, w + 3 days]`, giving `[w, w + 1 day]` and
      `[w + 4 days, w + 5 days]`. */
  lemma SingleBookingExample(w: int)
    ensures ComputeAvailability([Availability(w + 2 * DAY, w + 3 * DAY)], w, w + 5 * DAY)
              == [Availability(w, w + DAY), Availability(w + 4 * DAY, w + 5 * DAY)]
  {
    SingleBooking(w + 2 * DAY, w + 3 * DAY, w, w + 5 * DAY);
  }

  /** With two bookings the gap block starts the day after the previous
      block, which is the first booking's start: window `[w, w + 30 days]`,
      bookings `[w + 10, w + 11]` and `[w + 20, w + 21]` (in days) give a
      block `[w + 10, w + 19]` that covers the whole first booking. */
  lemma GapBlockCoversEarlierBooking(w: int)
    ensures var first := Availability(w + 10 * DAY, w + 11 * DAY);
            var second := Availability(w + 20 * DAY, w + 21 * DAY);
            var r := ComputeAvailability([first, second], w, w + 30 * DAY);
            && r == [Availability(w, w + 9 * DAY), Availability(w + 10 * DAY, w + 19 * DAY),
                     Availability(w + 22 * DAY, w + 30 * DAY)]
            && r[1].fromDate <= first.fromDate && first.toDate <= r[1].toDate
  {
    var first := Availability(w + 10 * DAY, w + 11 * DAY);
    var second := Availability(w + 20 * DAY, w + 21 * DAY);
    SortOfSorted([first, second]);
    var b1 := Step([], first, w);
    assert b1 == [Availability(w, w + 9 * DAY)];
    var b2 := Step(b1, second, w);
    assert b2 == [Availability(w, w + 9 * DAY), Availability(w + 10 * DAY, w + 19 * DAY)];
    assert Fold([], [first, second], w) == Fold(b1, [second], w) == Fold(b2, [], w) == b2;
  }

  /** A booking that starts less than a day after the window start yields a
      first block that ends before it starts. */
  lemma InvertedFirstBlock(found: seq<Availability>, rangeFrom: int, rangeTo: int, i: int)
    requires 0 <= i < |found| && found[i].fromDate < rangeFrom + DAY
    ensures var r := ComputeAvailability(found, rangeFrom, rangeTo);
            r[0].toDate < r[0].fromDate
  {
  }
}
