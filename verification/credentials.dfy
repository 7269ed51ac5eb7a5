/**
 * The room-reservation login: `load_credentials` turns the credentials CSV
 * into accounts keyed by user name, `verify_credentials` and `get_user_info`
 * look accounts up, and the login form refuses empty input before any lookup.
 */
module Credentials {
  import opened Optional
  import opened Text
  import opened CsvFile

  /** The record stored per user name. */
  datatype Account = Account(password: string, role: string, fullName: string)

  const DefaultRole: string := "student"

  /** Why `load_credentials` raised instead of returning accounts. */
  datatype LoadError =
    | ParseFailed         // a `csv.Error` while reading, which the handler does not catch
    | NoneField(name: string)  // a short record's `None` cell reached `.strip()`: `AttributeError`

  /**
   * `row.get(key, default)` on a `DictReader` row: the cell text when the
   * record has one, `None` when the header names the key but the record is
   * too short, and the default when the header does not name it at all.
   */
  function Get(header: seq<string>, row: Row, key: string, default: string): (r: Option<string>)
    ensures r.None? <==> key !in row && key in header
  {
    if key in row then Some(row[key])
    else if key in header then None
    else Some(default)
  }

  /** `.strip()` on what `Get` returned; `None` has no such method. */
  function StripField(cell: Option<string>, key: string): (r: Result<string, LoadError>)
    ensures cell.None? <==> r.Raised?
    ensures r.Ok? ==> r.value == Strip(cell.value)
  {
    match cell
    case None => Raised(NoneField(key))
    case Some(s) => Ok(Strip(s))
  }

  /** The account fields of a record, read in order: the password, the role (default `"student"`), the full name (default the user name). */
  function AccountOf(header: seq<string>, row: Row, user: string): (r: Result<Account, LoadError>)
    ensures r.Ok? ==> Get(header, row, "password", "").Some?
                      && r.value.password == Strip(Get(header, row, "password", "").value)
    ensures r.Ok? ==> Get(header, row, "role", DefaultRole).Some?
                      && r.value.role == Strip(Get(header, row, "role", DefaultRole).value)
    ensures r.Ok? ==> Get(header, row, "full_name", user).Some?
                      && r.value.fullName == Strip(Get(header, row, "full_name", user).value)
    ensures r.Raised? <==> Get(header, row, "password", "").None? || Get(header, row, "role", DefaultRole).None?
                           || Get(header, row, "full_name", user).None?
  {
    match StripField(Get(header, row, "password", ""), "password")
    case Raised(e) => Raised(e)
    case Ok(password) =>
      match StripField(Get(header, row, "role", DefaultRole), "role")
      case Raised(e) => Raised(e)
      case Ok(role) =>
        match StripField(Get(header, row, "full_name", user), "full_name")
        case Raised(e) => Raised(e)
        case Ok(fullName) => Ok(Account(password, role, fullName))
  }

  /**
   * One data record: skipped (`Ok(None)`) when its stripped user name is
   * empty, otherwise the user name and the account built from it. Fields are
   * read in order, so a record skipped for its user name never reaches the
   * others.
   */
  function Entry(header: seq<string>, record: seq<string>): (r: Result<Option<(string, Account)>, LoadError>)
    ensures r.Ok? && r.value.Some? ==> Trimmed(r.value.value.0)
  {
    RowEntry(header, Decode(header, record))
  }

  /** `Entry` on the record once `DictReader` has made it a row. */
  function RowEntry(header: seq<string>, row: Row): (r: Result<Option<(string, Account)>, LoadError>)
    ensures r.Ok? && r.value.Some? ==> Trimmed(r.value.value.0)
  {
    match UserName(header, row)
    case Raised(e) => Raised(e)
    case Ok(user) =>
      if user == "" then Ok(None)
      else
        match AccountOf(header, row, user)
        case Raised(e) => Raised(e)
        case Ok(account) => Ok(Some((user, account)))
  }

  /** The stripped `username` cell, read first. */
  function UserName(header: seq<string>, row: Row): (r: Result<string, LoadError>)
    ensures r.Ok? && r.value != "" ==> Trimmed(r.value)
  {
    StripField(Get(header, row, "username", ""), "username")
  }

  /** A non-empty string without whitespace at either end, so its own strip (see `StripUnchanged`). */
  predicate Trimmed(s: string) {
    |s| > 0 && !IsSpace(s[0]) && !IsSpace(s[|s| - 1])
  }

  /** Every key is non-empty and already stripped: what every loaded map looks like. */
  predicate Clean(creds: map<string, Account>) {
    forall u :: u in creds ==> Trimmed(u)
  }

  /**
   * What one record after the header does to the map read so far: blank
   * records and records that contribute nothing change nothing, and a key
   * overwrites any earlier value under it.
   */
  function CollectStep<K(==), V, E>(m: map<K, V>, record: seq<string>, entry: seq<string> -> Result<Option<(K, V)>, E>)
    : Result<map<K, V>, E>
  {
    if record == [] then Ok(m)
    else
      match entry(record)
      case Raised(e) => Raised(e)
      case Ok(None) => Ok(m)
      case Ok(Some(p)) => Ok(m[p.0 := p.1])
  }

  /** The `for row in reader` loop filling a dict: records in order, the first raise ends it. */
  function Collect<K(==), V, E>(records: seq<seq<string>>, entry: seq<string> -> Result<Option<(K, V)>, E>)
    : Result<map<K, V>, E>
  {
    if |records| == 0 then Ok(map[])
    else
      match Collect(records[..|records| - 1], entry)
      case Raised(e) => Raised(e)
      case Ok(m) => CollectStep(m, records[|records| - 1], entry)
  }

  /** The key a record contributes, if it contributes one. */
  function KeyOf<K(==), V, E>(record: seq<string>, entry: seq<string> -> Result<Option<(K, V)>, E>): Option<K> {
    if record == [] then None
    else match entry(record)
      case Ok(Some(p)) => Some(p.0)
      case _ => None
  }

  /** Record `k` gives key `u` the value `v`, and no later record contributes `u`. */
  predicate LastFor<K(==), V(==), E(==)>(records: seq<seq<string>>, entry: seq<string> -> Result<Option<(K, V)>, E>,
                             k: nat, u: K, v: V)
  {
    && k < |records|
    && records[k] != []
    && entry(records[k]) == Ok(Some((u, v)))
    && forall k' :: k < k' < |records| ==> KeyOf(records[k'], entry) != Some(u)
  }

  lemma {:induction false} CollectStepEffect<K, V, E>(m: map<K, V>, record: seq<string>,
                                                     entry: seq<string> -> Result<Option<(K, V)>, E>, u: K)
    requires CollectStep(m, record, entry).Ok?
    ensures var c := CollectStep(m, record, entry).value;
            && (KeyOf(record, entry) == Some(u) ==> u in c && record != [] && entry(record) == Ok(Some((u, c[u]))))
            && (KeyOf(record, entry) != Some(u) ==> (u in c <==> u in m) && (u in c ==> c[u] == m[u]))
  {
  }

  /**
   * A successful load holds exactly the keys the records contribute, each
   * with the value of the LAST record contributing it.
   */
  lemma {:induction false} LastRecordWins<K, V, E>(records: seq<seq<string>>,
                                                  entry: seq<string> -> Result<Option<(K, V)>, E>, u: K)
    requires Collect(records, entry).Ok?
    ensures var m := Collect(records, entry).value;
            && (u in m <==> exists k :: 0 <= k < |records| && KeyOf(records[k], entry) == Some(u))
            && (u in m ==> exists k :: 0 <= k < |records| && LastFor(records, entry, k, u, m[u]))
    decreases |records|
  {
    if |records| > 0 {
      var n := |records| - 1;
      var front := records[..n];
      var last := records[n];
      LastRecordWins(front, entry, u);
      var fm := Collect(front, entry).value;
      var m := Collect(records, entry).value;
      CollectStepEffect(fm, last, entry, u);
      if KeyOf(last, entry) == Some(u) {
        assert LastFor(records, entry, n, u, m[u]);
      } else {
        if u in m {
          var k :| 0 <= k < n && LastFor(front, entry, k, u, fm[u]);
          assert records[k] == front[k];
          assert forall k' :: k < k' < n ==> records[k'] == front[k'];
          assert LastFor(records, entry, k, u, m[u]);
        }
        if exists k :: 0 <= k < |records| && KeyOf(records[k], entry) == Some(u) {
          var k :| 0 <= k < |records| && KeyOf(records[k], entry) == Some(u);
          assert records[k] == front[k];
        }
      }
    }
  }

  /** The records after the header, in order, each contributing its account under its user name. */
  function LoadRecords(header: seq<string>, records: seq<seq<string>>): (r: Result<map<string, Account>, LoadError>)
    ensures r.Ok? ==> Clean(r.value)
  {
    var entry := (record: seq<string>) => Entry(header, record);
    var r := Collect(records, entry);
    assert r.Ok? ==> Clean(r.value) by {
      if r.Ok? {
        forall u | u in r.value ensures Trimmed(u) {
          LastRecordWins(records, entry, u);
          var k :| 0 <= k < |records| && LastFor(records, entry, k, u, r.value[u]);
        }
      }
    }
    r
  }

  /**
   * `load_credentials`: no accounts for a missing file, or for one that
   * cannot be opened or decoded (the handler catches `IOError` and
   * `ValueError`); a `csv.Error` or a `None` cell propagates.
   */
  function LoadCredentials(f: File): (r: Result<map<string, Account>, LoadError>)
    ensures f.Missing? || (f.Unreadable? && (f.error.OsError? || f.error == DecodeError)) ==> r == Ok(map[])
    ensures f == Unreadable(CsvError) ==> r == Raised(ParseFailed)
    ensures f.Csv? && |f.records| <= 1 ==> r == Ok(map[])
    ensures r.Ok? ==> Clean(r.value)
  {
    match f
    case Missing => Ok(map[])
    case Unreadable(e) => if e == CsvError then Raised(ParseFailed) else Ok(map[])
    case Csv(records) =>
      if |records| == 0 then Ok(map[]) else LoadRecords(records[0], records[1..])
  }

  // ---------------------------------------------------------------- lookups

  /** `verify_credentials`: a known user name whose stored password is exactly the one given. */
  function VerifyCredentials(user: string, password: string, creds: map<string, Account>): (ok: bool)
    ensures ok <==> GetUserInfo(user, creds).Some? && GetUserInfo(user, creds).value.password == password
  {
    user in creds && creds[user].password == password
  }

  /** `get_user_info`: the stored account of a known user name; `None` stands for the empty dict. */
  function GetUserInfo(user: string, creds: map<string, Account>): (r: Option<Account>)
    ensures r.Some? <==> user in creds
    ensures r.Some? ==> r.value == creds[user]
  {
    if user in creds then Some(creds[user]) else None
  }

  /** How a submitted login form ends. */
  datatype Login = EmptyInput | Rejected | Accepted(info: Account)

  /** The login form: both fields must be non-empty before the credentials are even consulted. */
  function SubmitLogin(user: string, password: string, creds: map<string, Account>): (r: Login)
    ensures r == EmptyInput <==> user == "" || password == ""
    ensures r.Accepted? <==> user != "" && password != "" && VerifyCredentials(user, password, creds)
    ensures r.Accepted? ==> Some(r.info) == GetUserInfo(user, creds)
  {
    if user == "" || password == "" then EmptyInput
    else if VerifyCredentials(user, password, creds) then Accepted(GetUserInfo(user, creds).value)
    else Rejected
  }

  /**
   * Only a name exactly as stored (stripped, non-empty) with its exact
   * password logs in; an account stored with an empty password can never
   * log in, and no one logs in against a missing credentials file.
   */
  lemma {:induction false} LoginNeedsStoredAccount(f: File, user: string, password: string)
    requires LoadCredentials(f).Ok?
    ensures var creds := LoadCredentials(f).value;
            && (SubmitLogin(user, password, creds).Accepted? ==>
                  user in creds && Strip(user) == user && creds[user].password == password != "")
            && (f.Missing? ==> !SubmitLogin(user, password, creds).Accepted?)
  {
  }

  /** A header naming all four columns and records that fill them never raise, and produce the records' stripped fields. */
  lemma {:induction false} FullRecordEntry(header: seq<string>, record: seq<string>)
    requires header == ["username", "password", "role", "full_name"] && |record| == 4
    ensures Entry(header, record).Ok?
    ensures Strip(record[0]) != "" ==>
              Entry(header, record) == Ok(Some((Strip(record[0]), Account(Strip(record[1]), Strip(record[2]), Strip(record[3])))))
    ensures Strip(record[0]) == "" ==> Entry(header, record) == Ok(None)
  {
    assert Distinct(header);
    DecodeFull(header, record);
    var row := Decode(header, record);
    assert Get(header, row, "username", "") == Some(record[0]) by { assert header[0] == "username"; }
    assert Get(header, row, "password", "") == Some(record[1]) by { assert header[1] == "password"; }
    assert Get(header, row, "role", DefaultRole) == Some(record[2]) by { assert header[2] == "role"; }
    assert Get(header, row, "full_name", Strip(record[0])) == Some(record[3]) by { assert header[3] == "full_name"; }
  }

  /** Without `role` and `full_name` columns, every account gets the role "student" and its user name as full name. */
  lemma {:induction false} DefaultsWithoutColumns(header: seq<string>, record: seq<string>)
    requires "role" !in header && "full_name" !in header
    requires Entry(header, record).Ok? && Entry(header, record).value.Some?
    ensures Entry(header, record).value.value.1.role == DefaultRole
    ensures Entry(header, record).value.value.1.fullName == Entry(header, record).value.value.0
  {
    var row := Decode(header, record);
    var cell := Get(header, row, "username", "");
    assert cell.Some?;
    var user := Strip(cell.value);
    assert Entry(header, record) == Ok(Some((user, AccountOf(header, row, user).value)));
    StripIdempotent(cell.value);
    RoleDefault(header, row, user);
    StudentStripped();
    FullNameDefault(header, row, user);
  }

  lemma {:induction false} RoleDefault(header: seq<string>, row: Row, user: string)
    requires "role" !in header && Fits(row, header)
    requires AccountOf(header, row, user).Ok?
    ensures AccountOf(header, row, user).value.role == Strip(DefaultRole)
  {
    assert "role" !in row;
    assert Get(header, row, "role", DefaultRole) == Some(DefaultRole);
  }

  lemma {:induction false} StudentStripped()
    ensures Strip(DefaultRole) == DefaultRole
  {
    StripUnchanged(DefaultRole);
  }

  lemma {:induction false} FullNameDefault(header: seq<string>, row: Row, user: string)
    requires "full_name" !in header && Fits(row, header)
    requires Strip(user) == user && AccountOf(header, row, user).Ok?
    ensures AccountOf(header, row, user).value.fullName == user
  {
    assert "full_name" !in row;
    assert Get(header, row, "full_name", user) == Some(user);
  }
}
