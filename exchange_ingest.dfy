/** What one run of `collect_mail` does to the `Mail` table: the newest
    items of the inbox are normalised one by one, and an item is inserted only
    when no stored row has the same date-time. An exception ends the run and
    keeps the rows inserted before it. */
module ExchangeIngest {
  import opened Wrappers
  import opened PyStrings
  import opened DateTimes
  import opened ExchangeMail

  /** How many of the newest inbox items one run looks at. */
  const BatchSize: nat := 3

  /** The row an insert of `f` appends to the table. */
  function NewRow(rows: seq<Mail>, f: Fields): (m: Mail)
    requires IdsIncreasing(rows) && f.subject.Some? && f.body.Some?
    ensures IdsIncreasing(rows + [m])
    ensures m.id == NextId(rows)
    ensures m.datetime == f.datetime && m.sender == f.sender && m.to == f.to && m.cc == f.cc
    ensures Some(m.subject) == f.subject && Some(m.body) == f.body
  {
    var m := Mail(NextId(rows), f.datetime, f.to, f.sender, f.cc, f.subject.value, f.body.value);
    assert IdsIncreasing(rows + [m]) by {
      assert forall i :: 0 <= i < |rows| ==> (rows + [m])[i] == rows[i];
      assert (rows + [m])[|rows|] == m;
    }
    m
  }

  /** One iteration of the loop: normalise the item, count the rows at its
      date-time and insert it when there are none. */
  function Step(rows: seq<Mail>, item: Item): (r: Result<seq<Mail>, Fault>)
    requires IdsIncreasing(rows)
    ensures Normalise(item).Err? ==> r == Err(Normalise(item).error)
    ensures r.Err? && Normalise(item).Ok? ==> r.error == IntegrityError
    ensures r.Ok? ==> IdsIncreasing(r.value) && rows <= r.value
    ensures r.Ok? ==> Normalise(item).Ok?
    ensures r.Ok? ==> (|r.value| == |rows| + 1 <==> CountAt(rows, Normalise(item).value.datetime) == 0)
    ensures r.Ok? ==> |r.value| <= |rows| + 1
    ensures r.Ok? && |r.value| == |rows| + 1 ==> r.value[|rows|].datetime == Normalise(item).value.datetime
    ensures r.Ok? && |r.value| == |rows| ==> r.value == rows
    ensures r.Ok? <==> (Normalise(item).Ok? &&
      (CountAt(rows, Normalise(item).value.datetime) != 0 || (item.subject.Some? && item.body.Some?)))
    ensures r.Ok? && |r.value| == |rows| + 1 ==>
      var m := r.value[|rows|];
      && m.id == NextId(rows)
      && m.sender == Address(item.sender.value)
      && m.to == JoinWith(",", Addresses(item.toRecipients.value))
      && m.cc == PyStr(item.displayCc)
      && Some(m.subject) == item.subject && Some(m.body) == item.body
  {
    match Normalise(item)
    case Err(e) => Err(e)
    case Ok(f) =>
      if CountAt(rows, f.datetime) != 0 then Ok(rows)
      else if f.subject.None? || f.body.None? then Err(IntegrityError)
      else Ok(rows + [NewRow(rows, f)])
  }

  /** The table after a run, and the exception that ended it, if any. */
  datatype Run = Run(rows: seq<Mail>, fault: Option<Fault>)

  /** Processing `items` in order, starting from the table `rows`. */
  function Ingest(rows: seq<Mail>, items: seq<Item>): (r: Run)
    requires IdsIncreasing(rows)
    ensures IdsIncreasing(r.rows)
    ensures rows <= r.rows
    ensures |r.rows| <= |rows| + |items|
    decreases |items|
  {
    if items == [] then Run(rows, None)
    else
      match Step(rows, items[0])
      case Err(e) => Run(rows, Some(e))
      case Ok(next) => Ingest(next, items[1..])
  }

  /** `collect_mail` on an inbox listed newest first. */
  function Collect(rows: seq<Mail>, newestFirst: seq<Item>): (r: Run)
    requires IdsIncreasing(rows)
    ensures rows <= r.rows
    ensures |r.rows| <= |rows| + BatchSize
  {
    Ingest(rows, Prefix(newestFirst, BatchSize))
  }

  /** One step of a loop that runs `Ingest(rows, items)`: given what the step
      did at position `k`, either the run ended there or it goes on from the
      table after the step. */
  lemma CollectStep(before: seq<Mail>, items: seq<Item>, k: int, after: seq<Mail>,
                    fault: Option<Fault>, target: Run)
    requires IdsIncreasing(before) && 0 <= k < |items| && Ingest(before, items[k..]) == target
    requires Step(before, items[k]).Err? ==> fault == Some(Step(before, items[k]).error) && after == before
    requires Step(before, items[k]).Ok? ==> fault.None? && after == Step(before, items[k]).value
    ensures IdsIncreasing(after)
    ensures fault.Some? ==> Run(after, fault) == target
    ensures fault.None? ==> Ingest(after, items[k + 1..]) == target
  {
    assert items[k..][0] == items[k] && items[k..][1..] == items[k + 1..];
  }

  // ---------------------------------------------------------------------
  // Properties of a run.

  /** Only the three newest items matter: anything older never affects
      the table. */
  lemma CollectIgnoresOlder(rows: seq<Mail>, newest: seq<Item>, older: seq<Item>)
    requires IdsIncreasing(rows) && |newest| >= BatchSize
    ensures Collect(rows, newest + older) == Collect(rows, newest)
  {
    assert Prefix(newest + older, BatchSize) == Prefix(newest, BatchSize);
  }

  /** Every row a run inserts has a date-time that no earlier row has, whether
      stored before the run or inserted by it. */
  lemma {:induction false} IngestNoDuplicateAdded(rows: seq<Mail>, items: seq<Item>)
    requires IdsIncreasing(rows)
    ensures var out := Ingest(rows, items).rows;
      forall i, j :: 0 <= i < j < |out| && |rows| <= j ==> out[i].datetime != out[j].datetime
    decreases |items|
  {
    if items != [] {
      var s := Step(rows, items[0]);
      if s.Ok? {
        var next := s.value;
        IngestNoDuplicateAdded(next, items[1..]);
        var out := Ingest(rows, items).rows;
        assert out == Ingest(next, items[1..]).rows;
        assert next <= out;
        if |next| == |rows| + 1 {
          var dt := next[|rows|].datetime;
          assert forall i :: 0 <= i < |rows| ==> rows[i].datetime != dt;
          forall i | 0 <= i < |rows| ensures out[i].datetime != out[|rows|].datetime {
            assert out[i] == rows[i];
            assert out[|rows|] == next[|rows|];
          }
        }
      }
    }
  }

  /** The rows stored before a run are never changed or removed. */
  lemma KeepsStoredRows(rows: seq<Mail>, items: seq<Item>)
    requires IdsIncreasing(rows)
    ensures forall i :: 0 <= i < |rows| ==> Ingest(rows, items).rows[i] == rows[i]
  {
  }

  /** Some row of the table has date-time `dt`. */
  predicate HasRowAt(rows: seq<Mail>, dt: PyDateTime) {
    exists i :: 0 <= i < |rows| && rows[i].datetime == dt
  }

  /** The item was normalised and a row has its date-time. */
  predicate Stored(rows: seq<Mail>, item: Item) {
    item.received.Some? && HasRowAt(rows, WholeSeconds(item.received.value))
  }

  /** After a step without an exception some row has the item's
      date-time: the one found by the count or the one inserted. */
  lemma StepStores(rows: seq<Mail>, item: Item)
    requires IdsIncreasing(rows) && Step(rows, item).Ok?
    ensures Stored(Step(rows, item).value, item)
  {
    var next := Step(rows, item).value;
    var dt := WholeSeconds(item.received.value);
    if |next| == |rows| + 1 {
      assert next[|rows|].datetime == dt;
    } else {
      assert CountAt(rows, dt) != 0;
      var i :| 0 <= i < |rows| && rows[i].datetime == dt;
      assert next[i] == rows[i];
    }
  }

  /** A stored item stays stored in any extension of the table. */
  lemma StoredExtends(rows: seq<Mail>, out: seq<Mail>, item: Item)
    requires Stored(rows, item) && rows <= out
    ensures Stored(out, item)
  {
    var i :| 0 <= i < |rows| && rows[i].datetime == WholeSeconds(item.received.value);
    assert out[i] == rows[i];
  }

  /** A run without an exception leaves a row at the date-time of every
      item it looked at, whether inserted by the run or stored before. */
  lemma {:induction false} IngestComplete(rows: seq<Mail>, items: seq<Item>)
    requires IdsIncreasing(rows)
    requires Ingest(rows, items).fault.None?
    ensures forall k :: 0 <= k < |items| ==> Stored(Ingest(rows, items).rows, items[k])
    decreases |items|
  {
    if items != [] {
      var next := Step(rows, items[0]).value;
      var out := Ingest(rows, items).rows;
      assert out == Ingest(next, items[1..]).rows;
      IngestComplete(next, items[1..]);
      StepStores(rows, items[0]);
      StoredExtends(next, out, items[0]);
      forall k | 1 <= k < |items| ensures Stored(out, items[k]) {
        assert items[k] == items[1..][k - 1];
      }
    }
  }

  /** Two items received within the same second, with nothing stored at that
      second: one row is inserted, not two. */
  lemma SameSecondOneRow(rows: seq<Mail>, a: Item, b: Item)
    requires IdsIncreasing(rows)
    requires Normalise(a).Ok? && Normalise(b).Ok?
    requires Normalise(a).value.subject.Some? && Normalise(a).value.body.Some?
    requires Normalise(a).value.datetime == Normalise(b).value.datetime
    requires CountAt(rows, Normalise(a).value.datetime) == 0
    ensures Ingest(rows, [a, b]).fault.None?
    ensures |Ingest(rows, [a, b]).rows| == |rows| + 1
  {
    var next := Step(rows, a).value;
    assert |next| == |rows| + 1;
    assert next[|rows|].datetime == Normalise(b).value.datetime;
    assert CountAt(next, Normalise(b).value.datetime) != 0;
    assert Step(next, b) == Ok(next);
    assert Ingest(next, [b]) == Run(next, None) by {
      assert [b][1..] == [];
    }
    assert Ingest(rows, [a, b]) == Ingest(next, [b]) by {
      assert [a, b][0] == a && [a, b][1..] == [b];
    }
  }

  /** Inserting into a table with keys 1..n keeps the keys 1..n. */
  lemma {:induction false} IngestKeepsDense(rows: seq<Mail>, items: seq<Item>)
    requires IdsIncreasing(rows) && IdsDense(rows)
    ensures IdsDense(Ingest(rows, items).rows)
    decreases |items|
  {
    if items != [] {
      var s := Step(rows, items[0]);
      if s.Ok? {
        assert IdsDense(s.value) by {
          if |s.value| == |rows| + 1 {
            if rows != [] {
              assert rows[|rows| - 1].id == |rows|;
            }
            assert s.value[|rows|].id == NextId(rows);
            forall i | 0 <= i < |rows| ensures s.value[i].id == i + 1 {
              assert s.value[i] == rows[i];
            }
          }
        }
        IngestKeepsDense(s.value, items[1..]);
      }
    }
  }

  /** An item whose subject or body is missing, at a date-time not yet
      stored, ends the run with the NOT NULL violation. */
  lemma MissingBodyAborts(rows: seq<Mail>, item: Item, rest: seq<Item>)
    requires IdsIncreasing(rows)
    requires Normalise(item).Ok? && CountAt(rows, Normalise(item).value.datetime) == 0
    requires item.subject.None? || item.body.None?
    ensures Ingest(rows, [item] + rest) == Run(rows, Some(IntegrityError))
  {
    assert ([item] + rest)[0] == item;
  }
}
