/** The `Email` object of the exporter: the opened `Mail` table, the account
    credentials and the filter settings the menu edits, with the two methods
    that change the world step by step, `collect_mail` and
    `records_to_files`. */
module ExchangeApi {
  import opened Wrappers
  import opened PyStrings
  import opened ExchangeMail
  import opened ExchangeIngest
  import opened ExchangeExport

  class Email {
    /** The rows of the `Mail` table in the opened database file. */
    var mails: seq<Mail>
    var email: Option<string>
    var password: Option<string>
    /** The filter settings the menu sets and resets. */
    var filterKeyword: Option<string>
    var filterRange: (Option<string>, Option<string>)
    var filterFolder: Option<string>

    predicate Valid()
      reads this
    {
      IdsIncreasing(mails)
    }

    /** Opening the database file whose table holds `stored` (the table is
        created when missing, so an empty `stored` stands for a new file). */
    constructor(stored: seq<Mail>, email: Option<string>, password: Option<string>)
      requires IdsIncreasing(stored)
      ensures Valid()
      ensures mails == stored && this.email == email && this.password == password
      ensures filterKeyword.None? && filterRange == (None, None) && filterFolder.None?
    {
      mails := stored;
      this.email := email;
      this.password := password;
      filterKeyword := None;
      filterRange := (None, None);
      filterFolder := None;
    }

    /** `Mail.insert(**f._asdict()).execute()`. */
    method Insert(f: Fields)
      requires Valid() && f.subject.Some? && f.body.Some?
      modifies this`mails
      ensures Valid()
      ensures mails == old(mails) + [NewRow(old(mails), f)]
    {
      mails := mails + [NewRow(mails, f)];
    }

    /** One pass of the loop of `collect_mail`: normalise the item, count the
        rows at its date-time and insert it when there are none. The result is
        the exception raised, if any; the table changes as `Step` says. */
    method CollectItem(item: Item) returns (fault: Option<Fault>)
      requires Valid()
      modifies this`mails
      ensures Valid()
      ensures Step(old(mails), item).Err? ==> fault == Some(Step(old(mails), item).error) && mails == old(mails)
      ensures Step(old(mails), item).Ok? ==> fault.None? && mails == Step(old(mails), item).value
    {
      var f := Normalise(item);
      if f.Err? {
        return Some(f.error);
      }
      if CountAt(mails, f.value.datetime) == 0 {
        if f.value.subject.None? || f.value.body.None? {
          return Some(IntegrityError);
        }
        Insert(f.value);
      }
      return None;
    }

    /** `collect_mail` over the inbox listed newest first: the first three
        items are normalised and inserted unless a row at their date-time is
        already stored. The result is the exception that ended the run. */
    method CollectMail(newestFirst: seq<Item>) returns (fault: Option<Fault>)
      requires Valid()
      modifies this`mails
      ensures Valid()
      ensures Run(mails, fault) == Collect(old(mails), newestFirst)
    {
      var items := Prefix(newestFirst, BatchSize);
      ghost var target := Collect(mails, newestFirst);
      var k := 0;
      while k < |items|
        invariant 0 <= k <= |items|
        invariant Valid()
        invariant Ingest(mails, items[k..]) == target
      {
        ghost var before := mails;
        fault := CollectItem(items[k]);
        CollectStep(before, items, k, mails, fault, target);
        if fault.Some? {
          return;
        }
        k := k + 1;
      }
      assert items[k..] == [];
      return None;
    }

    /** `records_to_files`: every row of `get_db_records()` is written to the
        output folder, given as its file name to content map. The result is
        the folder afterwards and the exception that stopped the export. */
    method RecordsToFiles(folder: map<string, string>) returns (written: map<string, string>, fault: Option<ExportError>)
      ensures Export(written, fault) == ExportAll(folder, GetDbRecords(mails, None, None))
    {
      var rows := GetDbRecords(mails, None, None);
      written := folder;
      var k := 0;
      while k < |rows|
        invariant 0 <= k <= |rows|
        invariant ExportAll(written, rows[k..]) == ExportAll(folder, rows)
      {
        assert rows[k..][0] == rows[k] && rows[k..][1..] == rows[k + 1..];
        var name := FileName(rows[k]);
        if name.Err? {
          return written, Some(name.error);
        }
        if !CanWrite(name.value) {
          return written, WriteError(name.value);
        }
        written := written[name.value := rows[k].body];
        k := k + 1;
      }
      assert rows[k..] == [];
      return written, None;
    }
  }
}
