/** Loading the sender accounts from the accounts sheet
    (read_accounts_from_excel). */
module AccountLoader {
  import opened Wrappers
  import opened Sequences
  import opened Text
  import opened Sheets
  import opened SmtpDirectory

  datatype Account = Account(login: string, password: string, smtpServer: string, smtpPort: int)

  const LoginColumn: string := "name_mail"
  const PasswordColumn: string := "passwd_mail"

  /** What every loaded account satisfies. */
  predicate ValidAccount(a: Account)
  {
    a.login != [] && a.password != [] &&
    IsStripped(a.login) && IsStripped(a.password) &&
    a.smtpServer != [] && a.smtpPort == SubmissionPort
  }

  /** A row's account: its trimmed login and password with the resolved
      server, or nothing when either is blank. */
  function AccountOf(row: seq<string>, loginCol: nat, passwordCol: nat): (r: Option<Account>)
    ensures r.Some? <==> RowQualifies(row, loginCol, passwordCol)
    ensures r.Some? ==> ValidAccount(r.value)
    ensures r.Some? ==> r.value.login == Strip(Cell(row, loginCol)) && r.value.password == Strip(Cell(row, passwordCol))
    ensures r.Some? ==> Server(r.value.smtpServer, r.value.smtpPort) == ResolveServer(r.value.login)
  {
    var login := Strip(Cell(row, loginCol));
    var password := Strip(Cell(row, passwordCol));
    if login == [] || password == [] then None
    else
      var srv := ResolveServer(login);
      Some(Account(login, password, srv.host, srv.port))
  }

  function RowReader(loginCol: nat, passwordCol: nat): seq<string> -> Option<Account>
  {
    row => AccountOf(row, loginCol, passwordCol)
  }

  function AccountRows(rows: seq<seq<string>>, loginCol: nat, passwordCol: nat): seq<Account>
  {
    FilterMap(RowReader(loginCol, passwordCol), rows)
  }

  /** The accounts a sheet yields; an unreadable sheet (None) or one without
      both required columns yields none. */
  function AccountsFrom(source: Option<Table>): (accounts: seq<Account>)
    ensures source.None? ==> accounts == []
    ensures source.Some? && (LoginColumn !in source.value.columns || PasswordColumn !in source.value.columns) ==>
      accounts == []
    ensures source.Some? ==> |accounts| <= |source.value.rows|
  {
    match source
    case None => []
    case Some(t) =>
      match (ColumnIndex(t, LoginColumn), ColumnIndex(t, PasswordColumn))
      case (Some(loginCol), Some(passwordCol)) => AccountRows(t.rows, loginCol, passwordCol)
      case _ => []
  }

  /** A row is used when its trimmed login and trimmed password are both non-empty. */
  predicate RowQualifies(row: seq<string>, loginCol: nat, passwordCol: nat)
  {
    Strip(Cell(row, loginCol)) != [] && Strip(Cell(row, passwordCol)) != []
  }

  /** The accounts are exactly the qualifying rows, in row order: the k-th
      account comes from the k-th qualifying row and holds its trimmed login
      and password and the server resolved from that login. */
  lemma AccountsFollowRows(rows: seq<seq<string>>, loginCol: nat, passwordCol: nat)
    ensures var accounts, idx := AccountRows(rows, loginCol, passwordCol), KeptIndices(RowReader(loginCol, passwordCol), rows);
      |idx| == |accounts| && StrictlyIncreasing(idx) &&
      (forall p :: 0 <= p < |rows| ==> (RowQualifies(rows[p], loginCol, passwordCol) <==> p in idx)) &&
      (forall k :: 0 <= k < |accounts| ==>
        var row := rows[idx[k]];
        accounts[k].login == Strip(Cell(row, loginCol)) &&
        accounts[k].password == Strip(Cell(row, passwordCol)) &&
        Server(accounts[k].smtpServer, accounts[k].smtpPort) == ResolveServer(accounts[k].login))
  {
    FilterMapExactly(RowReader(loginCol, passwordCol), rows);
  }

  /** Every loaded account is valid; in particular its port is 587. */
  lemma AccountsValid(source: Option<Table>)
    ensures forall a :: a in AccountsFrom(source) ==> ValidAccount(a)
  {
    if source.Some? {
      var t := source.value;
      var li, pi := ColumnIndex(t, LoginColumn), ColumnIndex(t, PasswordColumn);
      if li.Some? && pi.Some? {
        var f := RowReader(li.value, pi.value);
        FilterMapElements(f, t.rows);
      }
    }
  }

  /** As many accounts as qualifying rows. */
  lemma AccountCount(rows: seq<seq<string>>, loginCol: nat, passwordCol: nat)
    ensures |AccountRows(rows, loginCol, passwordCol)| == CountKept(RowReader(loginCol, passwordCol), rows)
  {
    FilterMapLength(RowReader(loginCol, passwordCol), rows);
  }

  /** The loader: skip the blank rows, resolve the server of the others and
      append them in row order. */
  method ReadAccounts(source: Option<Table>) returns (accounts: seq<Account>)
    ensures accounts == AccountsFrom(source)
    ensures source.None? ==> accounts == []
    ensures source.Some? && (LoginColumn !in source.value.columns || PasswordColumn !in source.value.columns) ==> accounts == []
    ensures forall a :: a in accounts ==> ValidAccount(a)
  {
    AccountsValid(source);
    if source.None? {
      return [];
    }
    var t := source.value;
    var loginCol := ColumnIndex(t, LoginColumn);
    var passwordCol := ColumnIndex(t, PasswordColumn);
    if loginCol.None? || passwordCol.None? {
      return [];
    }
    var li, pi := loginCol.value, passwordCol.value;
    accounts := [];
    var i := 0;
    while i < |t.rows|
      invariant 0 <= i <= |t.rows|
      invariant accounts == AccountRows(t.rows[..i], li, pi)
    {
      var row := t.rows[i];
      var login := Strip(Cell(row, li));
      var password := Strip(Cell(row, pi));
      assert t.rows[..i + 1][..i] == t.rows[..i];
      if login != [] && password != [] {
        var domain := Lower(DomainOf(login));
        var server := ServerForDomain(domain);
        accounts := accounts + [Account(login, password, server.host, server.port)];
      }
      i := i + 1;
    }
    assert t.rows[..i] == t.rows;
  }
}
