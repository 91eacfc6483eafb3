/**
 * The record store of `database.py`: the two sqlite tables `mods` and
 * `users` held as two maps keyed by their primary keys, and the `Connection`
 * methods that read and write them. The `IntegrityError` that sqlite raises
 * for a UNIQUE constraint becomes a `DbError` naming the column.
 */
module Database {
  import opened Wrappers

  /** The `state` column of `users`: NULL, 'add_group@code' or 'add_group@url'. */
  datatype State = Idle | AddGroupCode | AddGroupUrl

  /** A row of `mods` (url, code, renew_date, remove_date, admin); dates are day numbers. */
  datatype Mod = Mod(url: string, code: string, renewDate: int, removeDate: int, admin: string)

  /** A row of `users` (id, state, code_temp, msg_temp). */
  datatype UserRow = UserRow(id: string, state: State, codeTemp: Option<string>, msgTemp: Option<string>)

  /** The column named by the `IntegrityError` of an INSERT or UPDATE on `mods`. */
  datatype DbError = DuplicateCode | DuplicateUrl

  /** The row `get_user` and `add_user` insert for a user seen for the first time. */
  function DefaultUser(id: string): UserRow {
    UserRow(id, Idle, None, None)
  }

  /** The two tables at one moment. */
  datatype Snapshot = Snapshot(users: map<string, UserRow>, mods: map<string, Mod>)

  /** What `get_user` reads for `user`: the stored row, or the default row. */
  function Lookup(users: map<string, UserRow>, user: string): UserRow {
    if user in users then users[user] else DefaultUser(user)
  }

  /** The urls in use. */
  function UrlsOf(mods: map<string, Mod>): set<string> {
    set c | c in mods :: mods[c].url
  }

  /** `code` is the key of its row (PRIMARY KEY) and no url is used twice (UNIQUE). */
  ghost predicate Consistent(mods: map<string, Mod>) {
    && (forall c :: c in mods ==> mods[c].code == c)
    && (forall c, d :: c in mods && d in mods && mods[c].url == mods[d].url ==> c == d)
  }

  /**
   * The INSERT of `add_mod`: refused with the code column named when the code
   * is taken (sqlite checks the primary key before the url), else with the
   * url column named when the url is taken; otherwise exactly one row is added.
   */
  function InsertMod(mods: map<string, Mod>, m: Mod): (r: Result<map<string, Mod>, DbError>)
    ensures r == Err(DuplicateCode) <==> m.code in mods
    ensures r == Err(DuplicateUrl) <==> m.code !in mods && exists c :: c in mods && mods[c].url == m.url
    ensures r.Ok? ==> m.code !in mods && r.value == mods[m.code := m]
    ensures r.Ok? ==> r.value.Keys == mods.Keys + {m.code} && |r.value| == |mods| + 1
    ensures r.Ok? && Consistent(mods) ==> Consistent(r.value)
  {
    if m.code in mods then Err(DuplicateCode)
    else if m.url in UrlsOf(mods) then Err(DuplicateUrl)
    else
      var r := mods[m.code := m];
      assert r.Keys == mods.Keys + {m.code};
      Ok(r)
  }

  /** A database connection: the contents of both tables. */
  class Connection {
    var mods: map<string, Mod>
    var users: map<string, UserRow>

    /** The table constraints: primary keys match their rows and urls are unique. */
    ghost predicate Valid()
      reads this
    {
      Consistent(mods) && forall u :: u in users ==> users[u].id == u
    }

    /** Both tables. */
    function Contents(): Snapshot
      reads this
    {
      Snapshot(users, mods)
    }

    /** `__init__` on a fresh database file: both tables created empty. */
    constructor ()
      ensures Valid() && mods == map[] && users == map[]
    {
      mods := map[];
      users := map[];
    }

    /** `get_mod`: the row whose code is `code`, if there is one. */
    method GetMod(code: string) returns (r: Option<Mod>)
      requires Valid()
      ensures r.Some? <==> code in mods
      ensures r.Some? ==> r.value in mods.Values && r.value.code == code
    {
      r := if code in mods then Some(mods[code]) else None;
    }

    /** The rows that satisfy `keep`, each once, in some order. */
    method Select(keep: Mod -> bool) returns (r: seq<Mod>)
      requires Valid()
      ensures forall m :: m in r <==> m in mods.Values && keep(m)
      ensures forall i, j :: 0 <= i < j < |r| ==> r[i].code != r[j].code
    {
      var todo := mods.Keys;
      r := [];
      while todo != {}
        invariant todo <= mods.Keys
        invariant forall m :: m in r <==> m.code in mods && m.code !in todo && mods[m.code] == m && keep(m)
        invariant forall i, j :: 0 <= i < j < |r| ==> r[i].code != r[j].code
        invariant forall i :: 0 <= i < |r| ==> r[i].code !in todo
        decreases todo
      {
        var c :| c in todo;
        if keep(mods[c]) {
          r := r + [mods[c]];
        }
        todo := todo - {c};
      }
      forall m ensures m in mods.Values <==> m.code in mods && mods[m.code] == m {
        if m in mods.Values {
          var c :| c in mods && mods[c] == m;
        }
      }
    }

    /** `get_users_mods`: exactly the rows whose admin is `user`. */
    method GetUsersMods(user: string) returns (r: seq<Mod>)
      requires Valid()
      ensures forall m :: m in r <==> m in mods.Values && m.admin == user
      ensures forall i, j :: 0 <= i < j < |r| ==> r[i].code != r[j].code
    {
      r := Select((m: Mod) => m.admin == user);
    }

    /** `get_mods_reg('')`: the empty pattern matches every code, so every row once. */
    method GetAllMods() returns (r: seq<Mod>)
      requires Valid()
      ensures forall m :: m in r <==> m in mods.Values
      ensures forall i, j :: 0 <= i < j < |r| ==> r[i].code != r[j].code
    {
      r := Select((m: Mod) => true);
    }

    /** `get_user`: the stored row, or a default row that is inserted first. */
    method GetUser(user: string) returns (row: UserRow)
      requires Valid()
      modifies this
      ensures Valid()
      ensures row == Lookup(old(users), user) && row.id == user
      ensures old(user !in users) ==> row == DefaultUser(user)
      ensures users == old(users)[user := row] && mods == old(mods)
    {
      if user !in users {
        users := users[user := DefaultUser(user)];
      }
      row := users[user];
    }

    /** `update_user`: upsert, after which the row of `user` holds exactly the given fields. */
    method UpdateUser(user: string, state: State, codeTemp: Option<string>, msgTemp: Option<string>)
      requires Valid()
      modifies this
      ensures Valid()
      ensures users == old(users)[user := UserRow(user, state, codeTemp, msgTemp)]
      ensures mods == old(mods)
    {
      users := users[user := UserRow(user, state, codeTemp, msgTemp)];
    }

    /**
     * `update_mod`: upsert by code. Refused with the url column named, and
     * nothing changed, when another code already has this url; otherwise the
     * row of `code` holds exactly the given fields and no other row changes.
     */
    method UpdateMod(url: string, code: string, renewDate: int, removeDate: int, admin: string)
      returns (err: Option<DbError>)
      requires Valid()
      modifies this
      ensures Valid()
      ensures err.Some? <==> exists c :: c in old(mods) && c != code && old(mods)[c].url == url
      ensures err.Some? ==> err.value == DuplicateUrl && mods == old(mods)
      ensures err.None? ==> mods == old(mods)[code := Mod(url, code, renewDate, removeDate, admin)]
      ensures users == old(users)
    {
      if exists c :: c in mods && c != code && mods[c].url == url {
        err := Some(DuplicateUrl);
      } else {
        mods := mods[code := Mod(url, code, renewDate, removeDate, admin)];
        err := None;
      }
    }

    /** `add_mod`: the strict INSERT, see `InsertMod`. */
    method AddMod(url: string, code: string, renewDate: int, removeDate: int, admin: string)
      returns (err: Option<DbError>)
      requires Valid()
      modifies this
      ensures Valid()
      ensures err == Some(DuplicateCode) <==> code in old(mods)
      ensures err == Some(DuplicateUrl) <==> code !in old(mods) && url in UrlsOf(old(mods))
      ensures err.Some? ==> mods == old(mods)
      ensures err.None? ==> mods == old(mods)[code := Mod(url, code, renewDate, removeDate, admin)]
      ensures err.None? ==> |mods| == |old(mods)| + 1
      ensures users == old(users)
    {
      match InsertMod(mods, Mod(url, code, renewDate, removeDate, admin)) {
        case Ok(next) =>
          mods := next;
          err := None;
        case Err(e) =>
          err := Some(e);
      }
    }

    /** `add_user`: inserts the default row only when `user` has none; idempotent. */
    method AddUser(user: string)
      requires Valid()
      modifies this
      ensures Valid()
      ensures user in users
      ensures old(user in users) ==> users == old(users)
      ensures old(user !in users) ==> users == old(users)[user := DefaultUser(user)]
      ensures mods == old(mods)
    {
      if user !in users {
        users := users[user := DefaultUser(user)];
      }
    }

    /** `delete_mod`: the row of `code` is gone, every other row stays; no-op when absent. */
    method DeleteMod(code: string)
      requires Valid()
      modifies this
      ensures Valid()
      ensures mods == old(mods) - {code}
      ensures old(code !in mods) ==> mods == old(mods)
      ensures users == old(users)
    {
      mods := mods - {code};
    }
  }
}
