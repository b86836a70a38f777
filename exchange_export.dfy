/** What the exporter derives from stored rows: the export file name and the
    folder written by `records_to_files`, the pick list of `select_records`
    and the line trimming at the end of `format_html`. */
module ExchangeExport {
  import opened Wrappers
  import opened PyStrings
  import opened DateTimes
  import opened ExchangeMail

  // ---------------------------------------------------------------------
  // Export file names.

  /** The exceptions an export can raise. */
  datatype ExportError =
    | IndexError   // `split()[0]` of a blank sender
    | ValueError   // a file name holding a NUL character
    | OSError      // a file name inside a sub-folder that does not exist

  /** How many subject words go into a file name. */
  const SubjectWords: nat := 10

  /** The first ten words of the subject joined by `_`, with every non-word
      character removed. */
  function SubjectPart(subject: string): (r: string)
    ensures forall i :: 0 <= i < |r| ==> IsWordChar(r[i])
  {
    var r := KeepWordChars(JoinWith("_", Prefix(SplitWs(subject), SubjectWords)));
    assert forall i :: 0 <= i < |r| ==> r[i] in r;
    r
  }

  /** The name `records_to_files` gives the file for row `m`:
      `yymmdd_HHMM`, the sender's first word and the subject part, joined by
      `__`, with `.html` appended. A blank sender has no first word. */
  function FileName(m: Mail): (r: Result<string, ExportError>)
    ensures r.Err? <==> IsBlank(m.sender)
    ensures r.Err? ==> r.error == IndexError
    ensures r.Ok? ==> SplitWs(m.sender) != []
    ensures r.Ok? ==> r.value == FileStamp(m.datetime) + "__" + SplitWs(m.sender)[0] + "__"
                                 + SubjectPart(m.subject) + ".html"
    ensures r.Ok? ==> FileStamp(m.datetime) <= r.value
    ensures r.Ok? ==> |r.value| >= 11 + 2 + 1 + 2 + 5 && r.value[|r.value| - 5..] == ".html"
  {
    SplitWsEmptyIffBlank(m.sender);
    var words := SplitWs(m.sender);
    if words == [] then Err(IndexError)
    else
      var name := FileStamp(m.datetime) + "__" + words[0] + "__" + SubjectPart(m.subject) + ".html";
      assert name[..11] == FileStamp(m.datetime);
      Ok(name)
  }

  /** The file system accepts the name inside the output folder: it names no
      sub-folder and holds no NUL character. */
  predicate CanWrite(name: string) {
    '/' !in name && '\0' !in name
  }

  /** The exception `write_text` raises for the name: a NUL character is
      refused before the file system is asked; a `/` puts the file in a
      sub-folder of the output folder that was never created, which the
      file system reports as FileNotFoundError. */
  function WriteError(name: string): (r: Option<ExportError>)
    ensures r.None? <==> CanWrite(name)
    ensures r == Some(ValueError) <==> '\0' in name
    ensures r == Some(OSError) <==> '\0' !in name && '/' in name
  {
    if '\0' in name then Some(ValueError)
    else if '/' in name then Some(OSError)
    else None
  }

  /** The output folder as a map from file name to content, and the
      exception that stopped the export, if any. */
  datatype Export = Export(files: map<string, string>, fault: Option<ExportError>)

  /** Writing the rows one by one; a later file of the same name replaces an
      earlier one, and the first failure stops the export. */
  function ExportAll(files: map<string, string>, rows: seq<Mail>): (r: Export)
    ensures files.Keys <= r.files.Keys
    decreases |rows|
  {
    if rows == [] then Export(files, None)
    else
      match FileName(rows[0])
      case Err(e) => Export(files, Some(e))
      case Ok(name) =>
        if !CanWrite(name) then Export(files, WriteError(name))
        else ExportAll(files[name := rows[0].body], rows[1..])
  }

  // ---------------------------------------------------------------------
  // Properties of file names and of the export.

  /** A row stored by `collect_mail` always has a file name: its sender is a
      `name <address>` text. */
  lemma NormalisedRowHasName(m: Mail, sender: Mailbox)
    requires m.sender == Address(sender)
    ensures FileName(m).Ok?
  {
  }

  /** The file name depends on the date-time to the minute only: rows in the
      same minute from the same sender with the same subject share it. */
  lemma SameMinuteSameName(m: Mail, d: PyDateTime)
    requires d.year == m.datetime.year && d.month == m.datetime.month && d.day == m.datetime.day
    requires d.hour == m.datetime.hour && d.minute == m.datetime.minute
    ensures FileName(m.(datetime := d)) == FileName(m)
  {
  }

  /** The name ignores the key, the recipients, the cc and the body. */
  lemma NameIgnoresOtherColumns(m: Mail, id: int, to: string, cc: string, body: string)
    ensures FileName(m.(id := id, to := to, cc := cc, body := body)) == FileName(m)
  {
  }

  /** Only the first ten subject words count. */
  lemma SubjectPartTenWords(words: seq<string>, more: seq<string>)
    requires |words| == SubjectWords
    requires forall k :: 0 <= k < |words + more| ==> (words + more)[k] != [] && NoSpace((words + more)[k])
    ensures SubjectPart(JoinWith(" ", words + more)) == SubjectPart(JoinWith(" ", words))
  {
    forall k | 0 <= k < |words| ensures words[k] != [] && NoSpace(words[k]) {
      assert words[k] == (words + more)[k];
    }
    SplitWsJoin(words + more);
    SplitWsJoin(words);
    assert Prefix(words + more, SubjectWords) == words;
  }

  /** For a subject made of words of word characters, the subject part is
      its first ten words joined by `_`. */
  lemma SubjectPartOfWords(words: seq<string>)
    requires forall k :: 0 <= k < |words| ==> words[k] != []
    requires forall k, i :: 0 <= k < |words| && 0 <= i < |words[k]| ==> IsWordChar(words[k][i])
    ensures SubjectPart(JoinWith(" ", words)) == JoinWith("_", Prefix(words, SubjectWords))
  {
    forall k | 0 <= k < |words| ensures NoSpace(words[k]) {
      forall i | 0 <= i < |words[k]| ensures !IsSpace(words[k][i]) {
        assert IsWordChar(words[k][i]);
      }
    }
    SplitWsJoin(words);
    var first := Prefix(words, SubjectWords);
    forall k, i | 0 <= k < |first| && 0 <= i < |first[k]| ensures IsWordChar(first[k][i]) {
      assert first[k] == words[k];
    }
    assert IsWordChar('_');
    JoinWithWordChars("_", first);
    KeepWordCharsIdempotent(JoinWith("_", first));
  }

  /** A NUL character in the sender's first word stops the export at that
      row with ValueError, whatever follows. */
  lemma NulInSenderIsValueError(files: map<string, string>, m: Mail, rest: seq<Mail>)
    requires SplitWs(m.sender) != [] && '\0' in SplitWs(m.sender)[0]
    ensures ExportAll(files, [m] + rest) == Export(files, Some(ValueError))
  {
    var w := SplitWs(m.sender)[0];
    SplitWsEmptyIffBlank(m.sender);
    var name := FileName(m).value;
    var j :| 0 <= j < |w| && w[j] == '\0';
    assert name[13 + j] == w[j];
    assert ([m] + rest)[0] == m;
  }

  /** Whether the file can be written depends on the sender's first word
      alone: the stamp is digits and `_`, the subject part word characters. */
  lemma WritableIffSenderWord(m: Mail)
    requires FileName(m).Ok?
    ensures var w := SplitWs(m.sender)[0];
      CanWrite(FileName(m).value) <==> '/' !in w && '\0' !in w
  {
    var w := SplitWs(m.sender)[0];
    var stamp, part := FileStamp(m.datetime), SubjectPart(m.subject);
    assert FileName(m).value == stamp + "__" + w + "__" + part + ".html";
    assert '/' !in stamp && '\0' !in stamp by {
      forall i | 0 <= i < |stamp| ensures stamp[i] != '/' && stamp[i] != '\0' {
        if i != 6 { assert IsDigit(stamp[i]); }
      }
    }
    assert '/' !in part && '\0' !in part by {
      forall i | 0 <= i < |part| ensures part[i] != '/' && part[i] != '\0' {
        assert IsWordChar(part[i]);
      }
    }
    assert '/' !in "__" && '\0' !in "__" && '/' !in ".html" && '\0' !in ".html";
  }

  /** When the export succeeds, the file of row `i` holds row `i`'s body
      unless a later row has the same file name: the last writer wins. */
  lemma {:induction false} LastWriterWins(files: map<string, string>, rows: seq<Mail>, i: int)
    requires ExportAll(files, rows).fault.None? && 0 <= i < |rows|
    requires forall j :: i < j < |rows| ==> FileName(rows[j]) != FileName(rows[i])
    ensures FileName(rows[i]).Ok?
    ensures FileName(rows[i]).value in ExportAll(files, rows).files
    ensures ExportAll(files, rows).files[FileName(rows[i]).value] == rows[i].body
    decreases |rows|
  {
    var name := FileName(rows[0]).value;
    var next := files[name := rows[0].body];
    assert ExportAll(files, rows) == ExportAll(next, rows[1..]);
    if i == 0 {
      forall j | 0 <= j < |rows[1..]| ensures FileName(rows[1..][j]) != Ok(name) {
        assert rows[1..][j] == rows[j + 1];
      }
      ExportKeepsOthers(next, rows[1..], name);
    } else {
      forall j | i - 1 < j < |rows[1..]| ensures FileName(rows[1..][j]) != FileName(rows[1..][i - 1]) {
        assert rows[1..][j] == rows[j + 1];
      }
      LastWriterWins(next, rows[1..], i - 1);
    }
  }

  /** A file no row is written to keeps its content. */
  lemma {:induction false} ExportKeepsOthers(files: map<string, string>, rows: seq<Mail>, name: string)
    requires name in files
    requires forall j :: 0 <= j < |rows| ==> FileName(rows[j]) != Ok(name)
    ensures name in ExportAll(files, rows).files
    ensures ExportAll(files, rows).files[name] == files[name]
    decreases |rows|
  {
    if rows != [] && FileName(rows[0]).Ok? && CanWrite(FileName(rows[0]).value) {
      var next := files[FileName(rows[0]).value := rows[0].body];
      forall j | 0 <= j < |rows[1..]| ensures FileName(rows[1..][j]) != Ok(name) {
        assert rows[1..][j] == rows[j + 1];
      }
      ExportKeepsOthers(next, rows[1..], name);
    }
  }

  /** The export writes no file other than the rows' own. */
  lemma {:induction false} ExportWritesOnlyRowFiles(files: map<string, string>, rows: seq<Mail>, name: string)
    requires name in ExportAll(files, rows).files
    ensures name in files || exists j :: 0 <= j < |rows| && FileName(rows[j]) == Ok(name)
    decreases |rows|
  {
    if rows != [] && FileName(rows[0]).Ok? && CanWrite(FileName(rows[0]).value) && name !in files {
      var next := files[FileName(rows[0]).value := rows[0].body];
      ExportWritesOnlyRowFiles(next, rows[1..], name);
      if name !in next {
        var j :| 0 <= j < |rows[1..]| && FileName(rows[1..][j]) == Ok(name);
        assert rows[1..][j] == rows[j + 1];
      }
    }
  }

  // ---------------------------------------------------------------------
  // The pick list of `select_records`.

  /** `str(id)`. */
  function IdText(id: int): (r: string)
    ensures r != [] && (IsDigit(r[0]) || r[0] == '-')
    ensures ' ' !in r
  {
    var r := if id < 0 then "-" + NatToStr(-id) else NatToStr(id);
    assert forall i :: 0 <= i < |r| ==> IsDigit(r[i]) || r[i] == '-';
    r
  }

  /** The label of a row: `"id - yymmdd HH:MM - subject"`, that is the
      key's text, the stamp of the date-time and the subject, in that order
      and separated by `" - "`. */
  function Label(m: Mail): (r: string)
    ensures |r| == |IdText(m.id)| + 18 + |m.subject|
    ensures r[..|IdText(m.id)|] == IdText(m.id)
    ensures r[|IdText(m.id)|..|IdText(m.id)| + 3] == " - "
    ensures r[|IdText(m.id)| + 3..|IdText(m.id)| + 15] == LabelStamp(m.datetime)
    ensures r[|IdText(m.id)| + 15..|IdText(m.id)| + 18] == " - "
    ensures r[|IdText(m.id)| + 18..] == m.subject
  {
    var p, s := IdText(m.id), LabelStamp(m.datetime);
    var r := p + " - " + s + " - " + m.subject;
    assert r[..|p|] == p && r[|p|..|p| + 3] == " - " && r[|p| + 3..|p| + 15] == s;
    assert r[|p| + 15..|p| + 18] == " - " && r[|p| + 18..] == m.subject;
    r
  }

  function Labels(rows: seq<Mail>): (r: seq<string>)
    ensures |r| == |rows|
    ensures forall k :: 0 <= k < |rows| ==> r[k] == Label(rows[k])
  {
    seq(|rows|, k requires 0 <= k < |rows| => Label(rows[k]))
  }

  /** The rows offered: the given ones, or the whole table when none or an
      empty list is given. */
  function Listed(store: seq<Mail>, records: Option<seq<Mail>>): (r: seq<Mail>)
    ensures records.Some? && records.value != [] ==> r == records.value
    ensures records.None? || records.value == [] ==> r == GetDbRecords(store, None, None)
  {
    if records.None? || records.value == [] then GetDbRecords(store, None, None) else records.value
  }

  /** The choices, `"Exit"` first. */
  function Choices(store: seq<Mail>, records: Option<seq<Mail>>): (r: seq<string>)
    ensures |r| == 1 + |Listed(store, records)|
    ensures r[0] == "Exit"
    ensures forall k :: 0 <= k < |Listed(store, records)| ==> r[k + 1] == Label(Listed(store, records)[k])
  {
    var rows := Listed(store, records);
    var labels := Labels(rows);
    var r := ["Exit"] + labels;
    assert forall k :: 0 <= k < |rows| ==> r[k + 1] == labels[k];
    r
  }

  /** `select_records`: the text before the first `" - "` of the chosen
      entry, or None for `"Exit"`. The chosen entry is one of the choices. */
  function SelectRecords(store: seq<Mail>, records: Option<seq<Mail>>, chosen: string): (r: Option<string>)
    requires chosen in Choices(store, records)
    ensures r.None? <==> chosen == "Exit"
    ensures r.Some? ==> exists k :: (0 <= k < |Listed(store, records)|
      && chosen == Label(Listed(store, records)[k]) && r.value == IdText(Listed(store, records)[k].id))
  {
    ChosenLabelSplitsBack(store, records, chosen);
    var i := PrefixBefore(chosen, " - ");
    if i != "Exit" then Some(i) else None
  }

  /** The `"Exit"` entry splits back to itself. */
  lemma ExitSplitsBack()
    ensures PrefixBefore("Exit", " - ") == "Exit"
  {
    NoBlankNoSeparator("Exit");
    PrefixBeforeAbsent("Exit", " - ");
  }

  /** `"Exit"` splits back to itself; any other choice is the label of an
      offered row, and splits back to that row's key, which is not `"Exit"`. */
  lemma ChosenLabelSplitsBack(store: seq<Mail>, records: Option<seq<Mail>>, chosen: string)
    requires chosen in Choices(store, records)
    ensures PrefixBefore(chosen, " - ") == "Exit" <==> chosen == "Exit"
    ensures chosen != "Exit" ==> exists k :: (0 <= k < |Listed(store, records)|
      && chosen == Label(Listed(store, records)[k])
      && PrefixBefore(chosen, " - ") == IdText(Listed(store, records)[k].id))
  {
    if chosen == "Exit" {
      ExitSplitsBack();
      return;
    }
    var rows := Listed(store, records);
    var c := Choices(store, records);
    var j :| 0 <= j < |c| && c[j] == chosen;
    var k := j - 1;
    assert 0 <= k < |rows| && chosen == Label(rows[k]);
    LabelSplitsBack(rows[k]);
  }

  /** `" - "` never occurs in a text without blanks. */
  lemma NoBlankNoSeparator(s: string)
    requires ' ' !in s
    ensures !Contains(s, " - ")
  {
    forall i | 0 <= i <= |s| ensures !(" - " <= s[i..]) {
      if i < |s| { assert s[i] in s; }
    }
  }

  /** Splitting a label at its first `" - "` gives the key's text back. */
  lemma LabelSplitsBack(m: Mail)
    ensures PrefixBefore(Label(m), " - ") == IdText(m.id)
    ensures IdText(m.id) != "Exit"
  {
    var s, p := Label(m), IdText(m.id);
    assert IsDigit(p[0]) || p[0] == '-';
    assert " - " <= s[|p|..] by {
      assert s[|p|..][..3] == s[|p|..|p| + 3];
    }
    forall i | 0 <= i < |p| ensures !(" - " <= s[i..]) {
      assert s[i] == s[..|p|][i] == p[i];
      assert p[i] in p;
    }
    var r := PrefixBefore(s, " - ");
    if |r| != |p| {
      assert false;
    }
    assert r == s[..|p|];
  }

  /** Choosing a row's label selects that row's key, and its text reads back
      as the key. */
  lemma SelectRowRoundTrip(store: seq<Mail>, records: Option<seq<Mail>>, k: int)
    requires 0 <= k < |Listed(store, records)|
    requires Listed(store, records)[k].id >= 0
    ensures Label(Listed(store, records)[k]) in Choices(store, records)
    ensures SelectRecords(store, records, Label(Listed(store, records)[k]))
         == Some(NatToStr(Listed(store, records)[k].id))
    ensures DecimalValue(SelectRecords(store, records, Label(Listed(store, records)[k])).value)
         == Listed(store, records)[k].id
  {
    var m := Listed(store, records)[k];
    assert Choices(store, records)[k + 1] == Label(m);
    LabelSplitsBack(m);
  }

  // ---------------------------------------------------------------------
  // The line trimming of `format_html`.

  /** How many lines `format_html` keeps. */
  const MaxLines: nat := 40

  /** The lines that are not blank, in order. */
  function NonBlankLines(lines: seq<string>): (r: seq<string>)
    ensures |r| <= |lines|
    ensures forall k :: 0 <= k < |r| ==> !IsBlank(r[k]) && r[k] in lines
  {
    if lines == [] then []
    else (if IsBlank(lines[0]) then [] else [lines[0]]) + NonBlankLines(lines[1..])
  }

  /** The lines `format_html` keeps of the converted text. */
  function KeptLines(markdown: string): (r: seq<string>)
    ensures r <= NonBlankLines(SplitOn(markdown, '\n'))
    ensures |r| == if |NonBlankLines(SplitOn(markdown, '\n'))| < MaxLines
                   then |NonBlankLines(SplitOn(markdown, '\n'))| else MaxLines
    ensures forall k :: 0 <= k < |r| ==> !IsBlank(r[k]) && '\n' !in r[k]
  {
    var lines := SplitOn(markdown, '\n');
    var r := Prefix(NonBlankLines(lines), MaxLines);
    assert forall k :: 0 <= k < |r| ==> r[k] in lines;
    r
  }

  /** The end of `format_html`: drop the blank lines of the converted text
      and keep the first forty. The conversion from HTML is the parameter
      `markdown`. */
  function TrimLines(markdown: string): (r: string)
    ensures r == "" <==> KeptLines(markdown) == []
    ensures r != "" ==> SplitOn(r, '\n') == KeptLines(markdown)
  {
    var kept := KeptLines(markdown);
    assert kept != [] ==> JoinWith("\n", kept) != "" && SplitOn(JoinWith("\n", kept), '\n') == kept by {
      if kept != [] {
        SplitOnJoin(kept, '\n');
        assert !IsBlank(kept[0]);
      }
    }
    JoinWith("\n", kept)
  }

  /** Dropping blank lines keeps the order: it works part by part. */
  lemma {:induction false} NonBlankLinesAppend(a: seq<string>, b: seq<string>)
    ensures NonBlankLines(a + b) == NonBlankLines(a) + NonBlankLines(b)
  {
    if a == [] {
      assert a + b == b;
    } else {
      assert (a + b)[1..] == a[1..] + b;
      NonBlankLinesAppend(a[1..], b);
    }
  }

  /** Lines none of which is blank are all kept. */
  lemma {:induction false} NonBlankLinesKeepsAll(lines: seq<string>)
    requires forall k :: 0 <= k < |lines| ==> !IsBlank(lines[k])
    ensures NonBlankLines(lines) == lines
  {
    if lines != [] {
      NonBlankLinesKeepsAll(lines[1..]);
    }
  }

  /** With forty non-blank lines or fewer, nothing but blank lines is
      dropped. */
  lemma ShortTextKeepsAllLines(markdown: string)
    requires |NonBlankLines(SplitOn(markdown, '\n'))| <= MaxLines
    ensures KeptLines(markdown) == NonBlankLines(SplitOn(markdown, '\n'))
  {
  }

  /** Trimming a trimmed text changes nothing. */
  lemma TrimLinesIdempotent(markdown: string)
    ensures TrimLines(TrimLines(markdown)) == TrimLines(markdown)
  {
    var kept := KeptLines(markdown);
    if kept == [] {
      assert SplitOn("", '\n') == [""];
      assert IsBlank("");
      assert NonBlankLines([""]) == [] by { assert [""][1..] == []; }
    } else {
      NonBlankLinesKeepsAll(kept);
    }
  }
}
