/** The admin panel: a login gate on one session flag, and an upload that
    replaces the whole metrics collection with the rows of a CSV file. */
module AdminPanel {
  import opened Wrappers
  import opened Timestamps

  /** `ADMIN_USERNAME` and `ADMIN_PASSWORD` as `os.getenv` returns them. */
  datatype AdminConfig = AdminConfig(username: Option<string>, password: Option<string>)

  /** Python's `==` between an entered string and a `getenv` result: a
      string never equals None. */
  predicate SameText(entered: string, configured: Option<string>) {
    configured.Some? && configured.value == entered
  }

  /** `authenticate_user`. */
  function AuthenticateUser(config: AdminConfig, username: string, password: string): (ok: bool)
    ensures ok <==> config.username == Some(username) && config.password == Some(password)
  {
    SameText(username, config.username) && SameText(password, config.password)
  }

  /** With either variable unset, no credentials are accepted. */
  lemma UnsetVariableBlocksLogin(config: AdminConfig, username: string, password: string)
    requires config.username.None? || config.password.None?
    ensures !AuthenticateUser(config, username, password)
  {
  }

  // ---------------------------------------------------------------------
  // The session flag

  /** What the user does on one run of `main`. */
  datatype SessionEvent =
    | LoginAttempt(username: string, password: string)  // the Login button, with the form's contents
    | LogoutClick                                         // the Logout button

  /** `st.session_state.authenticated` after one event: the login form is
      only shown while logged out, the logout button only while logged in. */
  function NextAuthenticated(config: AdminConfig, authenticated: bool, e: SessionEvent): bool {
    match e
    case LoginAttempt(u, p) => if !authenticated && AuthenticateUser(config, u, p) then true else authenticated
    case LogoutClick => if authenticated then false else authenticated
  }

  /** The flag after a run of events, starting from a fresh session. */
  function AuthenticatedAfter(config: AdminConfig, events: seq<SessionEvent>): bool {
    if events == [] then false
    else NextAuthenticated(config, AuthenticatedAfter(config, events[..|events| - 1]), events[|events| - 1])
  }

  predicate GoodLogin(config: AdminConfig, e: SessionEvent) {
    e.LoginAttempt? && AuthenticateUser(config, e.username, e.password)
  }

  /** A session is logged in exactly when some attempt with the configured
      credentials has not been followed by a logout. */
  lemma {:induction false} AuthenticatedAfterIff(config: AdminConfig, events: seq<SessionEvent>)
    ensures AuthenticatedAfter(config, events)
            <==> exists i :: 0 <= i < |events| && GoodLogin(config, events[i])
                             && forall j :: i < j < |events| ==> events[j] != LogoutClick
  {
    if events != [] {
      var p := events[..|events| - 1];
      var n := |events| - 1;
      AuthenticatedAfterIff(config, p);
      if AuthenticatedAfter(config, events) && events[n] != LogoutClick && !GoodLogin(config, events[n]) {
        var i :| 0 <= i < |p| && GoodLogin(config, p[i]) && forall j :: i < j < |p| ==> p[j] != LogoutClick;
        assert events[i] == p[i];
        assert forall j :: i < j < |events| ==> events[j] != LogoutClick by {
          forall j | i < j < |events|
            ensures events[j] != LogoutClick
          {
            if j < n {
              assert events[j] == p[j];
            }
          }
        }
      }
      if exists i :: 0 <= i < |events| && GoodLogin(config, events[i])
                     && forall j :: i < j < |events| ==> events[j] != LogoutClick {
        var i :| 0 <= i < |events| && GoodLogin(config, events[i])
                 && forall j :: i < j < |events| ==> events[j] != LogoutClick;
        if i < n {
          assert p[i] == events[i];
          assert forall j :: i < j < |p| ==> p[j] == events[j];
        }
      }
    }
  }

  /** With either variable unset a session never gets past the login form. */
  lemma NeverAuthenticatedWhenUnset(config: AdminConfig, events: seq<SessionEvent>)
    requires config.username.None? || config.password.None?
    ensures !AuthenticatedAfter(config, events)
  {
    AuthenticatedAfterIff(config, events);
  }

  // ---------------------------------------------------------------------
  // The upload

  /** A calendar day `pd.to_datetime(...).dt.date` can produce. */
  type Day = d: CivilDate | d.Valid() witness CivilDate(1970, 1, 1)

  /** A row of the uploaded CSV: its `Date` reduced to the day, and the
      other cells, which travel unchanged. */
  datatype UploadRow = UploadRow(date: Day, cells: seq<string>)

  /** A document of the `metrics` collection. */
  datatype StoredDoc = StoredDoc(date: string, cells: seq<string>)

  /** `date.strftime('%Y-%m-%dT%H:%M:%S.%fZ')`: a `date` has no time, so
      the time fields print as zeros. */
  function DayText(d: Day): string {
    Format(Midnight(d))
  }

  function ToDoc(r: UploadRow): StoredDoc {
    StoredDoc(DayText(r.date), r.cells)
  }

  /** The documents one save writes. */
  function StoredDocs(rows: seq<UploadRow>): seq<StoredDoc> {
    seq(|rows|, i requires 0 <= i < |rows| => ToDoc(rows[i]))
  }

  /** Every stored date text parses back, under the fixed-format parser
      `ParseIso`, as midnight of the uploaded day; the other cells are those
      uploaded. */
  lemma StoredDocsReadBack(rows: seq<UploadRow>)
    ensures |StoredDocs(rows)| == |rows|
    ensures forall i :: 0 <= i < |rows| ==>
      && ParseIso(StoredDocs(rows)[i].date) == Some(Midnight(rows[i].date))
      && ParseIso(StoredDocs(rows)[i].date).value.date == rows[i].date
      && StoredDocs(rows)[i].cells == rows[i].cells
  {
    forall i | 0 <= i < |rows|
      ensures ParseIso(StoredDocs(rows)[i].date) == Some(Midnight(rows[i].date))
    {
      ParseIsoOfFormat(Midnight(rows[i].date));
    }
  }

  /** The `metrics` collection of the Mongo database. */
  class MetricsCollection {
    var docs: seq<StoredDoc>

    constructor ()
      ensures docs == []
    {
      docs := [];
    }
  }

  /** `save_data_to_mongodb`: without a connection, report failure and
      touch nothing; otherwise format every date, delete every document and
      insert the new ones. `insert_many` refuses an empty list by raising,
      after the delete has run, so an upload with no rows empties the
      collection and reports failure. */
  method SaveDataToMongo(db: MetricsCollection?, rows: seq<UploadRow>) returns (saved: bool)
    modifies db
    ensures saved <==> db != null && rows != []
    ensures db != null ==> db.docs == StoredDocs(rows)
  {
    if db == null {
      return false;
    }
    var records: seq<StoredDoc> := [];
    for i := 0 to |rows|
      invariant records == StoredDocs(rows[..i])
    {
      assert rows[..i + 1] == rows[..i] + [rows[i]];
      records := records + [StoredDoc(DayText(rows[i].date), rows[i].cells)];
    }
    assert rows[..|rows|] == rows;
    db.docs := [];
    if records == [] {
      return false;
    }
    db.docs := db.docs + records;
    return true;
  }

  /** One browser session of the panel. */
  class AdminSession {
    var authenticated: bool
    const config: AdminConfig
    const db: MetricsCollection?

    /** A new session starts logged out. */
    constructor (config: AdminConfig, db: MetricsCollection?)
      ensures !authenticated
      ensures this.config == config && this.db == db
    {
      authenticated := false;
      this.config := config;
      this.db := db;
    }

    /** The Login button. */
    method Login(username: string, password: string)
      modifies this
      ensures authenticated == NextAuthenticated(config, old(authenticated), LoginAttempt(username, password))
      ensures authenticated <==> old(authenticated) || AuthenticateUser(config, username, password)
    {
      if !authenticated {
        if AuthenticateUser(config, username, password) {
          authenticated := true;
        }
      }
    }

    /** The Logout button. */
    method Logout()
      modifies this
      ensures authenticated == NextAuthenticated(config, old(authenticated), LogoutClick)
      ensures !authenticated
    {
      if authenticated {
        authenticated := false;
      }
    }

    /** A file dropped on the uploader: it exists only while logged in, and
        the collection then holds exactly the uploaded rows. */
    method Upload(rows: seq<UploadRow>) returns (saved: bool)
      modifies db
      ensures saved <==> authenticated && db != null && rows != []
      ensures authenticated && db != null ==> db.docs == StoredDocs(rows)
      ensures !authenticated ==> db == null || db.docs == old(db.docs)
    {
      if !authenticated {
        return false;
      }
      saved := SaveDataToMongo(db, rows);
    }
  }
}
