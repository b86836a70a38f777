/** The command-line entry point of the exporter: checking the parsed
    arguments and filling in credentials from the environment, the menu's
    entries and the settings its actions change, and the choice `main` makes
    between downloading at once and showing the menu. */
module MailExportMain {
  import opened Wrappers
  import opened PyStrings
  import opened ExchangeMail
  import opened ExchangeExport
  import ExchangeApi

  /** Python truthiness of an optional string and of an optional integer. */
  predicate Truthy(o: Option<string>) {
    o.Some? && o.value != ""
  }

  predicate TruthyInt(o: Option<int>) {
    o.Some? && o.value != 0
  }

  /** The namespace the argument parser returns. */
  datatype Args = Args(database: string, email: Option<string>, password: Option<string>,
                       serverName: Option<string>, username: Option<string>,
                       archiveFolders: Option<string>, downloadNow: bool,
                       purgeMailOlderThan: Option<int>)

  /** The attributes the environment may supply, in the order they are
      looked at. */
  const CredentialNames: seq<string> := ["email", "password"]

  /** `getattr(args, name, None)` for the two credential attributes. */
  function GetAttr(a: Args, name: string): (r: Option<string>)
    requires name in CredentialNames
    ensures name == "email" ==> r == a.email
    ensures name == "password" ==> r == a.password
  {
    if name == "email" then a.email else a.password
  }

  /** `setattr(args, name, v)` for the two credential attributes. */
  function SetAttr(a: Args, name: string, v: Option<string>): (r: Args)
    requires name in CredentialNames
    ensures GetAttr(r, name) == v
    ensures r == a.(email := r.email, password := r.password)
    ensures name == "email" ==> r.password == a.password
    ensures name == "password" ==> r.email == a.email
  {
    if name == "email" then a.(email := v) else a.(password := v)
  }

  /** `os.environ.get(key, None)`. */
  function EnvGet(environ: map<string, string>, key: string): (r: Option<string>)
    ensures r.Some? <==> key in environ
    ensures r.Some? ==> r.value == environ[key]
  {
    if key in environ then Some(environ[key]) else None
  }

  /** A credential as given on the command line, else from the environment:
      a given value is kept, and a missing one becomes the variable's value
      when it is set and stays missing when it is not. */
  function Fallback(given: Option<string>, environ: map<string, string>, key: string): (r: Option<string>)
    ensures given.Some? ==> r == given
    ensures given.None? ==> (r.Some? <==> key in environ)
    ensures given.None? && r.Some? ==> r.value == environ[key]
  {
    if given.Some? then given else EnvGet(environ, key)
  }

  /** What `get_args` does after parsing: the exit status 1 when downloading
      at once and purging are both asked for, otherwise the arguments with a
      missing e-mail or password taken from the variables `EMAIL` and
      `PASSWORD`. */
  method GetArgs(parsed: Args, environ: map<string, string>) returns (r: Result<Args, int>)
    ensures r.Err? <==> parsed.downloadNow && TruthyInt(parsed.purgeMailOlderThan)
    ensures r.Err? ==> r.error == 1
    ensures r.Ok? ==> r.value == parsed.(email := Fallback(parsed.email, environ, "EMAIL"),
                                         password := Fallback(parsed.password, environ, "PASSWORD"))
  {
    if parsed.downloadNow && TruthyInt(parsed.purgeMailOlderThan) {
      return Err(1);
    }
    assert Upper("email") == "EMAIL" && Upper("password") == "PASSWORD";
    var args := parsed;
    for k := 0 to |CredentialNames|
      invariant args.email == if k > 0 then Fallback(parsed.email, environ, "EMAIL") else parsed.email
      invariant args.password == if k > 1 then Fallback(parsed.password, environ, "PASSWORD") else parsed.password
      invariant args == parsed.(email := args.email, password := args.password)
    {
      var name := CredentialNames[k];
      if GetAttr(args, name).None? {
        args := SetAttr(args, name, EnvGet(environ, Upper(name)));
      }
    }
    return Ok(args);
  }

  /** `bitem`: the text before the first `" - "`: a prefix of the entry in
      which no `" - "` starts, followed in the entry by `" - "` or by nothing. */
  function Bitem(item: string): (r: string)
    ensures r <= item
    ensures forall i :: 0 <= i < |r| ==> !(" - " <= item[i..])
    ensures |r| == |item| || " - " <= item[|r|..]
  {
    PrefixBefore(item, " - ")
  }

  /** `bitem` gives the whole entry when it has no `" - "`, and otherwise
      the text up to the first one. */
  lemma BitemFirstField(item: string)
    ensures !Contains(item, " - ") ==> Bitem(item) == item
    ensures Contains(item, " - ") ==> " - " <= item[|Bitem(item)|..]
    ensures Bitem(item) <= item
    ensures forall i :: 0 <= i < |Bitem(item)| ==> !(" - " <= item[i..])
  {
    if !Contains(item, " - ") {
      PrefixBeforeAbsent(item, " - ");
    }
  }

  /** `bitem` of a row's pick-list label is the row's key. */
  lemma BitemOfLabel(m: Mail)
    ensures Bitem(Label(m)) == IdText(m.id)
  {
    LabelSplitsBack(m);
  }

  // ---------------------------------------------------------------------
  // The main menu.

  /** What a menu entry runs. */
  datatype Action = Exit | MailSettings | DateRange | FolderFilter | KeywordFilter
                  | ResetFilters | ShowFiltered | SaveFiltered | Download

  /** The entries every menu has, in order. */
  const FixedItems: seq<(string, Action)> := [
    ("Exit", Exit),
    ("E-mail settings", MailSettings),
    ("Update date range filter", DateRange),
    ("Update folder to filter", FolderFilter),
    ("Update keyword filter", KeywordFilter),
    ("Reset filters", ResetFilters),
    ("Show filtered e-mails", ShowFiltered),
    ("Save filtered e-mails to folder", SaveFiltered)
  ]

  const DownloadLabel: string := "Download from account"

  /** The `items` dictionary of `Menu.main`, in insertion order. */
  function MenuItems(email: Option<string>, password: Option<string>): (items: seq<(string, Action)>)
    ensures |items| == if Truthy(email) && Truthy(password) then 9 else 8
    ensures items[..8] == FixedItems
  {
    if Truthy(email) && Truthy(password) then FixedItems + [(DownloadLabel, Download)] else FixedItems
  }

  function Keys(items: seq<(string, Action)>): (r: seq<string>)
    ensures |r| == |items|
    ensures forall k :: 0 <= k < |items| ==> r[k] == items[k].0
  {
    seq(|items|, k requires 0 <= k < |items| => items[k].0)
  }

  /** `items.get(choice)`: the action of the entry with that label. */
  function Dispatch(items: seq<(string, Action)>, choice: string): (a: Action)
    requires choice in Keys(items)
    ensures exists k :: 0 <= k < |items| && items[k] == (choice, a)
  {
    if items[0].0 == choice then items[0].1
    else
      assert choice in Keys(items[1..]) by {
        var k :| 0 <= k < |items| && Keys(items)[k] == choice;
        assert k > 0 && Keys(items[1..])[k - 1] == choice;
      }
      var a := Dispatch(items[1..], choice);
      assert exists k :: 0 <= k < |items[1..]| && items[1..][k] == (choice, a);
      var k :| 0 <= k < |items[1..]| && items[1..][k] == (choice, a);
      assert items[k + 1] == (choice, a);
      a
  }

  /** The labels of the menu are distinct, as the keys of a dictionary are. */
  lemma MenuLabelsDistinct(email: Option<string>, password: Option<string>)
    ensures var keys := Keys(MenuItems(email, password));
      forall i, j :: 0 <= i < j < |keys| ==> keys[i] != keys[j]
  {
    var keys := Keys(MenuItems(email, password));
    forall i, j | 0 <= i < j < |keys| ensures keys[i] != keys[j] {
      LabelsDiffer(MenuItems(email, password), i, j);
    }
  }

  /** The nine possible labels differ pairwise; they already differ in
      length or in their first character. */
  lemma LabelsDiffer(items: seq<(string, Action)>, i: int, j: int)
    requires |items| == 8 || |items| == 9
    requires items[..8] == FixedItems
    requires |items| == 9 ==> items[8] == (DownloadLabel, Download)
    requires 0 <= i < j < |items|
    ensures items[i].0 != items[j].0
  {
    assert items[i] == (FixedItems + [(DownloadLabel, Download)])[i];
    assert items[j] == (FixedItems + [(DownloadLabel, Download)])[j];
  }

  /** "Download from account" is offered exactly when both e-mail and
      password are set and not empty, and it is the only entry that
      downloads. */
  lemma DownloadOfferedIffCredentials(email: Option<string>, password: Option<string>)
    ensures DownloadLabel in Keys(MenuItems(email, password)) <==> Truthy(email) && Truthy(password)
    ensures (exists k :: 0 <= k < |MenuItems(email, password)| && MenuItems(email, password)[k].1 == Download)
        <==> Truthy(email) && Truthy(password)
  {
    var items := MenuItems(email, password);
    if Truthy(email) && Truthy(password) {
      assert Keys(items)[8] == DownloadLabel;
      assert items[8].1 == Download;
    } else {
      assert items == FixedItems;
      forall k | 0 <= k < 8 ensures Keys(items)[k] != DownloadLabel && items[k].1 != Download {
        assert |Keys(items)[k]| != |DownloadLabel| || Keys(items)[k][0] != DownloadLabel[0];
      }
    }
  }

  /** Every fixed entry runs its own action, with or without credentials. */
  lemma FixedEntriesDispatch(email: Option<string>, password: Option<string>, k: int)
    requires 0 <= k < 8
    ensures FixedItems[k].0 in Keys(MenuItems(email, password))
    ensures Dispatch(MenuItems(email, password), FixedItems[k].0) == FixedItems[k].1
  {
    var items := MenuItems(email, password);
    assert Keys(items)[k] == FixedItems[k].0;
    var a := Dispatch(items, FixedItems[k].0);
    var j :| 0 <= j < |items| && items[j] == (FixedItems[k].0, a);
    LabelsDistinctAt(items, j, k);
  }

  /** Two entries with the same label are the same entry. */
  lemma LabelsDistinctAt(items: seq<(string, Action)>, i: int, j: int)
    requires |items| == 8 || |items| == 9
    requires items[..8] == FixedItems
    requires |items| == 9 ==> items[8] == (DownloadLabel, Download)
    requires 0 <= i < |items| && 0 <= j < |items| && items[i].0 == items[j].0
    ensures i == j
  {
    if i < j { LabelsDiffer(items, i, j); }
    else if j < i { LabelsDiffer(items, j, i); }
  }

  /** The menu object: the arguments and the `Email` object whose settings
      its actions change. No action touches the stored table, so each keeps
      `email.Valid()`. */
  class Menu {
    const args: Args
    const email: ExchangeApi.Email

    constructor(args: Args, email: ExchangeApi.Email)
      ensures this.args == args && this.email == email
    {
      this.args := args;
      this.email := email;
    }

    /** `reset_filters`: no keyword, no date range, no folder. */
    method ResetFilters()
      modifies email`filterKeyword, email`filterRange, email`filterFolder
      ensures email.filterKeyword == None
      ensures email.filterRange == (None, None)
      ensures email.filterFolder == None
      ensures email.mails == old(email.mails)
    {
      email.filterKeyword := None;
      email.filterRange := (None, None);
      email.filterFolder := None;
    }

    /** `get_mail_creds` with the two answers of the prompt. */
    method GetMailCreds(address: string, secret: string)
      modifies email`email, email`password
      ensures email.email == Some(address) && email.password == Some(secret)
      ensures email.mails == old(email.mails)
    {
      email.email, email.password := Some(address), Some(secret);
    }

    /** `get_range` with the two answers of the prompt. */
    method GetRange(from: string, to: string)
      modifies email`filterRange
      ensures email.filterRange == (Some(from), Some(to))
      ensures email.mails == old(email.mails)
    {
      email.filterRange := (Some(from), Some(to));
    }

    /** `get_search_word` with the typed answer. */
    method GetSearchWord(words: string)
      modifies email`filterKeyword
      ensures email.filterKeyword == Some(words)
      ensures email.mails == old(email.mails)
    {
      email.filterKeyword := Some(words);
    }
  }

  // ---------------------------------------------------------------------
  // `main`.

  /** How a run of the program ends up. */
  datatype Outcome =
    | Exited(status: int)          // `get_args` stopped the program
    | DownloadedThenExited(status: int)
    | MenuShown(email: Option<string>, password: Option<string>)  // the menu's credentials

  /** The keyword arguments `Email(**args.__dict__)` passes: the parser's
      attribute names. */
  const NamespaceKeys: seq<string> := ["database", "email", "password", "server_name", "username",
                                       "archive_folders", "download_now", "purge_mail_older_than"]

  /** Whether `Email.__init__` accepts the given keyword arguments: only
      `filename`, `email` and `password` are parameters. */
  predicate EmailAccepts(keys: seq<string>) {
    forall k :: 0 <= k < |keys| ==> keys[k] == "filename" || keys[k] == "email" || keys[k] == "password"
  }

  /** As written, `main` cannot build its `Email`: the namespace has a
      `database` attribute (and five more) that `Email.__init__` does not
      accept, so the call raises TypeError. */
  lemma MainConstructionRejected()
    ensures !EmailAccepts(NamespaceKeys)
  {
    assert NamespaceKeys[0] == "database";
  }

  /** `main` with the `Email` object built from the parsed database, e-mail
      and password, as the parameters of `Email.__init__` intend: stop on
      the argument check, download and exit with 0 when downloading at once
      or purging is asked for, otherwise show the menu. The rows of the
      database file are `stored`. */
  method RunMain(parsed: Args, environ: map<string, string>, stored: seq<Mail>) returns (outcome: Outcome)
    requires IdsIncreasing(stored)
    ensures parsed.downloadNow && TruthyInt(parsed.purgeMailOlderThan) ==> outcome == Exited(1)
    ensures !(parsed.downloadNow && TruthyInt(parsed.purgeMailOlderThan)) ==>
      outcome == if parsed.downloadNow || TruthyInt(parsed.purgeMailOlderThan)
                 then DownloadedThenExited(0)
                 else MenuShown(Fallback(parsed.email, environ, "EMAIL"),
                                Fallback(parsed.password, environ, "PASSWORD"))
  {
    var r := GetArgs(parsed, environ);
    if r.Err? {
      return Exited(r.error);
    }
    var args := r.value;
    var email := new ExchangeApi.Email(stored, args.email, args.password);
    if args.downloadNow || TruthyInt(args.purgeMailOlderThan) {
      return DownloadedThenExited(0);
    }
    var menu := new Menu(args, email);
    return MenuShown(menu.email.email, menu.email.password);
  }
}
