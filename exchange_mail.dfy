/** The `Mail` table of the exporter's SQLite database, the inbox items it is
    filled from, the normalisation of an item into a row's six fields, and the
    read-only queries over the table (`get_db_records`, `find_records`). */
module ExchangeMail {
  import opened Wrappers
  import opened PyStrings
  import opened DateTimes

  /** One row of the `Mail` table: the implicit integer primary key and six
      NOT NULL columns. */
  datatype Mail = Mail(id: int, datetime: PyDateTime, to: string, sender: string,
                       cc: string, subject: string, body: string)

  /** The rows are kept in primary-key order, and keys are positive and
      strictly increasing (the table's rowid). */
  predicate IdsIncreasing(rows: seq<Mail>) {
    && (forall i :: 0 <= i < |rows| ==> rows[i].id >= 1)
    && (forall i, j :: 0 <= i < j < |rows| ==> rows[i].id < rows[j].id)
  }

  /** A table filled by inserts only: the keys are exactly 1..n. */
  predicate IdsDense(rows: seq<Mail>) {
    forall i :: 0 <= i < |rows| ==> rows[i].id == i + 1
  }

  /** The key SQLite gives the next inserted row: one more than the largest. */
  function NextId(rows: seq<Mail>): (n: int)
    requires IdsIncreasing(rows)
    ensures n == if rows == [] then 1 else rows[|rows| - 1].id + 1
    ensures n >= 1
    ensures forall i :: 0 <= i < |rows| ==> rows[i].id < n
  {
    if rows == [] then 1 else rows[|rows| - 1].id + 1
  }

  // ---------------------------------------------------------------------
  // Inbox items, as the mail client library hands them over.

  /** A mailbox; either part may be missing. */
  datatype Mailbox = Mailbox(name: Option<string>, emailAddress: Option<string>)

  /** The attributes of a received message that the exporter reads. Each
      may be missing (`None`). */
  datatype Item = Item(received: Option<PyDateTime>, sender: Option<Mailbox>,
                       toRecipients: Option<seq<Mailbox>>, displayCc: Option<string>,
                       subject: Option<string>, body: Option<string>)

  /** The exceptions ingestion can raise. */
  datatype Fault =
    | AttributeError   // a method or attribute looked up on None
    | TypeError        // iterating over None
    | IntegrityError   // None stored in a NOT NULL column

  /** `str(x)` / `f"{x}"` for an optional string. */
  function PyStr(o: Option<string>): (r: string)
    ensures o.Some? ==> r == o.value
  {
    match o
    case None => "None"
    case Some(s) => s
  }

  /** `f"{m.name} <{m.email_address}>"`. */
  function Address(m: Mailbox): (r: string)
    ensures |r| == |PyStr(m.name)| + |PyStr(m.emailAddress)| + 3
    ensures PyStr(m.name) <= r
    ensures r[|PyStr(m.name)|..|PyStr(m.name)| + 2] == " <"
    ensures r[|PyStr(m.name)| + 2..|r| - 1] == PyStr(m.emailAddress)
    ensures r[|r| - 1] == '>'
    ensures '<' in r && !IsBlank(r)
  {
    var r := PyStr(m.name) + " <" + PyStr(m.emailAddress) + ">";
    assert r[|PyStr(m.name)| + 1] == '<';
    r
  }

  function Addresses(ms: seq<Mailbox>): (r: seq<string>)
    ensures |r| == |ms|
    ensures forall k :: 0 <= k < |ms| ==> r[k] == Address(ms[k])
  {
    seq(|ms|, k requires 0 <= k < |ms| => Address(ms[k]))
  }

  /** The six values computed for an item before it is stored. */
  datatype Fields = Fields(datetime: PyDateTime, sender: string, to: string, cc: string,
                           subject: Option<string>, body: Option<string>)

  /** The named tuple built for an item, its arguments evaluated left to
      right: the receive time formatted with ISO_FORMAT and parsed back, the
      sender, the comma-joined recipients and `str(display_cc)`; subject and
      body as they are. */
  function Normalise(item: Item): (r: Result<Fields, Fault>)
    ensures r.Ok? <==> item.received.Some? && item.sender.Some? && item.toRecipients.Some?
    ensures r.Err? ==> r.error == (if item.received.Some? && item.sender.Some? then TypeError else AttributeError)
    ensures r.Ok? ==> r.value.datetime == WholeSeconds(item.received.value)
    ensures r.Ok? ==> r.value.sender == Address(item.sender.value)
    ensures r.Ok? ==> r.value.to == JoinWith(",", Addresses(item.toRecipients.value))
    ensures r.Ok? ==> r.value.cc == PyStr(item.displayCc)
    ensures r.Ok? ==> r.value.subject == item.subject && r.value.body == item.body
  {
    if item.received.None? || item.sender.None? then Err(AttributeError)
    else if item.toRecipients.None? then Err(TypeError)
    else
      var stamp := ToIsoDt(IsoFormat(item.received.value));
      assert stamp == Ok(WholeSeconds(item.received.value)) by {
        IsoRoundTrip(item.received.value);
      }
      Ok(Fields(stamp.value,
                Address(item.sender.value),
                JoinWith(",", Addresses(item.toRecipients.value)),
                PyStr(item.displayCc),
                item.subject,
                item.body))
  }

  // ---------------------------------------------------------------------
  // Queries.

  /** `Mail.select().where(Mail.datetime == dt).count()`. */
  function CountAt(rows: seq<Mail>, dt: PyDateTime): (n: nat)
    ensures n <= |rows|
    ensures n == 0 <==> forall i :: 0 <= i < |rows| ==> rows[i].datetime != dt
  {
    if rows == [] then 0
    else (if rows[0].datetime == dt then 1 else 0) + CountAt(rows[1..], dt)
  }

  /** The rows whose key lies in `lo..hi`, in table order. */
  function IdRange(rows: seq<Mail>, lo: int, hi: int): (r: seq<Mail>)
    ensures |r| <= |rows|
    ensures forall m :: m in r <==> m in rows && lo <= m.id <= hi
  {
    if rows == [] then []
    else (if lo <= rows[0].id <= hi then [rows[0]] else []) + IdRange(rows[1..], lo, hi)
  }

  /** `get_db_records(f=..., t=...)`: a missing `f` is 0 and a missing `t`
      is the number of rows. */
  function GetDbRecords(rows: seq<Mail>, f: Option<int>, t: Option<int>): (r: seq<Mail>)
    ensures forall m :: m in r <==>
      (m in rows && (if f.Some? then f.value else 0) <= m.id
                 && m.id <= (if t.Some? then t.value else |rows|))
  {
    IdRange(rows, if f.Some? then f.value else 0, if t.Some? then t.value else |rows|)
  }

  /** peewee's `contains`, which SQLite evaluates as `LIKE '%word%'`:
      a substring test that ignores ASCII case. */
  predicate LikeContains(field: string, word: string)
    ensures Contains(field, word) ==> LikeContains(field, word)
    ensures word == "" ==> LikeContains(field, word)
  {
    ContainsEmpty(Lower(field));
    assert Contains(field, word) ==> Contains(Lower(field), Lower(word)) by {
      if Contains(field, word) {
        ContainsLower(field, word);
      }
    }
    Contains(Lower(field), Lower(word))
  }

  /** The search condition of `find_records`: an exact occurrence in the
      recipients, the sender, the subject or the body is a hit, and the empty
      word hits every row; the cc column is not part of it. */
  predicate Hit(m: Mail, word: string)
    ensures (Contains(m.to, word) || Contains(m.sender, word)
             || Contains(m.subject, word) || Contains(m.body, word)) ==> Hit(m, word)
    ensures word == "" ==> Hit(m, word)
  {
    LikeContains(m.to, word) || LikeContains(m.sender, word)
    || LikeContains(m.subject, word) || LikeContains(m.body, word)
  }

  /** A search word LIKE takes literally: no `%` or `_` wildcard in it. */
  predicate NoWildcard(word: string) {
    '%' !in word && '_' !in word
  }

  /** `find_records(search_word)`: the matching rows, in table order. */
  function FindRecords(rows: seq<Mail>, word: string): (r: seq<Mail>)
    requires NoWildcard(word)
    ensures |r| <= |rows|
    ensures forall m :: m in r <==> m in rows && Hit(m, word)
  {
    if rows == [] then []
    else (if Hit(rows[0], word) then [rows[0]] else []) + FindRecords(rows[1..], word)
  }

  // ---------------------------------------------------------------------
  // Properties.

  /** A normalised sender always holds a non-blank `name <address>` text. */
  lemma NormalisedSenderNotBlank(item: Item)
    requires Normalise(item).Ok?
    ensures !IsBlank(Normalise(item).value.sender)
    ensures SplitWs(Normalise(item).value.sender) != []
  {
    SplitWsEmptyIffBlank(Normalise(item).value.sender);
  }

  /** No recipients give an empty `to`. */
  lemma NoRecipients(item: Item)
    requires item.received.Some? && item.sender.Some? && item.toRecipients == Some([])
    ensures Normalise(item).value.to == ""
  {
  }

  /** When no name or address holds a comma, splitting `to` on commas gives
      back one `name <address>` per recipient, in order. */
  lemma RecipientsSplitBack(item: Item)
    requires Normalise(item).Ok? && item.toRecipients.value != []
    requires forall k :: 0 <= k < |item.toRecipients.value| ==> ',' !in Address(item.toRecipients.value[k])
    ensures SplitOn(Normalise(item).value.to, ',') == Addresses(item.toRecipients.value)
  {
    SplitOnJoin(Addresses(item.toRecipients.value), ',');
  }

  /** Two items received in the same second normalise to the same date-time. */
  lemma SameSecondSameStamp(a: Item, b: Item)
    requires Normalise(a).Ok? && Normalise(b).Ok?
    requires a.received.value.(microsecond := 0) == b.received.value.(microsecond := 0)
    ensures Normalise(a).value.datetime == Normalise(b).value.datetime
  {
  }

  /** Rows are in the range exactly when every key lies in it. */
  lemma {:induction false} IdRangeAll(rows: seq<Mail>, lo: int, hi: int)
    requires forall i :: 0 <= i < |rows| ==> lo <= rows[i].id <= hi
    ensures IdRange(rows, lo, hi) == rows
  {
    if rows != [] {
      IdRangeAll(rows[1..], lo, hi);
    }
  }

  /** No row is in the range when no key lies in it. */
  lemma {:induction false} IdRangeNone(rows: seq<Mail>, lo: int, hi: int)
    requires forall i :: 0 <= i < |rows| ==> !(lo <= rows[i].id <= hi)
    ensures IdRange(rows, lo, hi) == []
  {
    if rows != [] {
      IdRangeNone(rows[1..], lo, hi);
    }
  }

  /** The range query distributes over a split of the table. */
  lemma {:induction false} IdRangeAppend(a: seq<Mail>, b: seq<Mail>, lo: int, hi: int)
    ensures IdRange(a + b, lo, hi) == IdRange(a, lo, hi) + IdRange(b, lo, hi)
  {
    if a == [] {
      assert a + b == b;
    } else {
      assert (a + b)[1..] == a[1..] + b;
      IdRangeAppend(a[1..], b, lo, hi);
    }
  }

  /** Called without arguments on a table filled by inserts,
      `get_db_records` returns the whole table. */
  lemma DefaultIsWholeTable(rows: seq<Mail>)
    requires IdsDense(rows)
    ensures GetDbRecords(rows, None, None) == rows
  {
    IdRangeAll(rows, 0, |rows|);
  }

  /** A table split into rows below, inside and above the key range. */
  lemma IdRangeThree(below: seq<Mail>, inside: seq<Mail>, above: seq<Mail>, f: int, t: int)
    requires forall i :: 0 <= i < |below| ==> !(f <= below[i].id <= t)
    requires forall i :: 0 <= i < |inside| ==> f <= inside[i].id <= t
    requires forall i :: 0 <= i < |above| ==> !(f <= above[i].id <= t)
    ensures IdRange(below + inside + above, f, t) == inside
  {
    IdRangeNone(below, f, t);
    IdRangeAll(inside, f, t);
    IdRangeNone(above, f, t);
    IdRangeAppend(below + inside, above, f, t);
    IdRangeAppend(below, inside, f, t);
    assert [] + inside + [] == inside;
  }

  /** On a table with keys 1..n, the keys `f..t` are the rows `lo..hi` when
      the rows before `lo` are below `f`, the rows from `hi` on are above `t`
      and the rows between are inside. */
  lemma IdRangeDense(rows: seq<Mail>, f: int, t: int, lo: int, hi: int)
    requires IdsDense(rows) && 0 <= lo <= hi <= |rows|
    requires lo == 0 || lo < f
    requires lo == hi || (f <= lo + 1 && hi <= t)
    requires hi == |rows| || t <= hi
    ensures IdRange(rows, f, t) == rows[lo..hi]
  {
    var below, inside, above := rows[..lo], rows[lo..hi], rows[hi..];
    assert rows == below + inside + above;
    assert IdRange(below + inside + above, f, t) == inside by {
      forall i | 0 <= i < |below| ensures !(f <= below[i].id <= t) {
        assert below[i] == rows[i];
      }
      forall i | 0 <= i < |inside| ensures f <= inside[i].id <= t {
        assert inside[i] == rows[lo + i];
      }
      forall i | 0 <= i < |above| ensures !(f <= above[i].id <= t) {
        assert above[i] == rows[hi + i];
      }
      IdRangeThree(below, inside, above, f, t);
    }
  }

  /** On a table with keys 1..n, the records from `f` to `t` are the slice
      of rows `f - 1 .. t`, clipped to the table. */
  lemma GetDbRecordsSlice(rows: seq<Mail>, f: int, t: int)
    requires IdsDense(rows)
    ensures var lo := if f < 1 then 0 else if f > |rows| then |rows| else f - 1;
            var hi := if t < lo then lo else if t > |rows| then |rows| else t;
            GetDbRecords(rows, Some(f), Some(t)) == rows[lo..hi]
  {
    var lo := if f < 1 then 0 else if f > |rows| then |rows| else f - 1;
    var hi := if t < lo then lo else if t > |rows| then |rows| else t;
    IdRangeDense(rows, f, t, lo, hi);
  }

  /** The search keeps the table order: searching a split table is
      searching each part. */
  lemma {:induction false} FindRecordsAppend(a: seq<Mail>, b: seq<Mail>, word: string)
    requires NoWildcard(word)
    ensures FindRecords(a + b, word) == FindRecords(a, word) + FindRecords(b, word)
  {
    if a == [] {
      assert a + b == b;
    } else {
      assert (a + b)[1..] == a[1..] + b;
      FindRecordsAppend(a[1..], b, word);
    }
  }

  /** A row whose subject, body, sender or recipients contain the word as
      typed is found. */
  lemma FindsExactOccurrence(rows: seq<Mail>, word: string, i: int)
    requires NoWildcard(word) && 0 <= i < |rows|
    requires Contains(rows[i].to, word) || Contains(rows[i].sender, word)
          || Contains(rows[i].subject, word) || Contains(rows[i].body, word)
    ensures rows[i] in FindRecords(rows, word)
  {
    var m := rows[i];
    if Contains(m.to, word) { ContainsLower(m.to, word); }
    else if Contains(m.sender, word) { ContainsLower(m.sender, word); }
    else if Contains(m.subject, word) { ContainsLower(m.subject, word); }
    else { ContainsLower(m.body, word); }
  }

  /** The empty search word finds every row. */
  lemma {:induction false} EmptyWordFindsAll(rows: seq<Mail>)
    ensures FindRecords(rows, "") == rows
  {
    if rows != [] {
      ContainsEmpty(Lower(rows[0].to));
      assert Lower("") == "";
      EmptyWordFindsAll(rows[1..]);
    }
  }

  /** The search ignores the cc column: changing a row's cc never changes
      whether it is found. */
  lemma CcNeverSearched(rows: seq<Mail>, i: int, cc: string, word: string)
    requires NoWildcard(word) && 0 <= i < |rows|
    ensures var changed := rows[i := rows[i].(cc := cc)];
            rows[i] in FindRecords(rows, word) <==> changed[i] in FindRecords(changed, word)
  {
    var changed := rows[i := rows[i].(cc := cc)];
    assert changed[i] in changed;
  }

  /** The search ignores ASCII case in the search word. */
  lemma SearchIgnoresCase(rows: seq<Mail>, word: string)
    requires NoWildcard(word) && NoWildcard(Lower(word))
    ensures FindRecords(rows, Lower(word)) == FindRecords(rows, word)
  {
    LowerIdempotent(word);
    SameSearch(rows, Lower(word), word);
  }

  /** Two words with the same folded form select the same rows. */
  lemma {:induction false} SameSearch(rows: seq<Mail>, w1: string, w2: string)
    requires NoWildcard(w1) && NoWildcard(w2) && Lower(w1) == Lower(w2)
    ensures FindRecords(rows, w1) == FindRecords(rows, w2)
  {
    if rows != [] {
      SameSearch(rows[1..], w1, w2);
    }
  }
}
