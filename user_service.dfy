/**
 * The user store: an ordered list of users with lookup by name, search, add and update,
 * and the users file codec (save and load).
 */
module UserStore {
  import opened Wrappers
  import opened Text
  import opened Allocation
  import opened UserModel
  import opened CsvFiles

  const Header: Row := ["userID", "name", "username", "password", "role"]
  const DefaultFileName := "Users.csv"

  /** The field values of a list of users, in order. */
  function Snap(us: seq<User>): (r: seq<UserRec>)
    reads us
    ensures |r| == |us| && forall i :: 0 <= i < |us| ==> r[i] == us[i].Rec()
  {
    seq(|us|, i requires 0 <= i < |us| reads us => us[i].Rec())
  }

  function IdsOf(s: seq<UserRec>): (r: seq<int>)
    ensures |r| == |s| && forall i :: 0 <= i < |s| ==> r[i] == s[i].id
  {
    seq(|s|, i requires 0 <= i < |s| => s[i].id)
  }

  function IdSet(s: seq<UserRec>): set<int>
  {
    set i | 0 <= i < |s| :: s[i].id
  }

  predicate UniqueIds(s: seq<UserRec>)
  {
    forall i, j :: 0 <= i < j < |s| ==> s[i].id != s[j].id
  }

  /** Names are compared ignoring case. */
  predicate SameName(a: string, b: string)
  {
    Lower(a) == Lower(b)
  }

  /** The position of the first user whose name equals `name` ignoring case. */
  function IndexOfName(s: seq<UserRec>, name: string): (r: Option<nat>)
    ensures r.None? <==> forall i :: 0 <= i < |s| ==> !SameName(s[i].name, name)
    ensures r.Some? ==>
      (r.value < |s| && SameName(s[r.value].name, name)
       && forall j :: 0 <= j < r.value ==> !SameName(s[j].name, name))
  {
    if s == [] then None
    else if SameName(s[0].name, name) then Some(0)
    else
      match IndexOfName(s[1..], name)
      case None => None
      case Some(k) => Some(k + 1)
  }

  /** The search test: the query occurs in the name or the login name ignoring case, or it
      is exactly the id written in decimal. */
  predicate Matches(u: UserRec, query: string)
  {
    Contains(Lower(u.name), Lower(query))
    || IntToString(u.id) == query
    || Contains(Lower(u.username), Lower(query))
  }

  /** The users the search reports, in list order. */
  function SearchResults(s: seq<UserRec>, query: string): seq<UserRec>
  {
    if s == [] then []
    else SearchResults(s[..|s| - 1], query) + (if Matches(s[|s| - 1], query) then [s[|s| - 1]] else [])
  }

  /** A user is reported exactly when it is in the list and matches. */
  lemma {:induction false} SearchResultsIff(s: seq<UserRec>, query: string, x: UserRec)
    ensures x in SearchResults(s, query) <==> x in s && Matches(x, query)
  {
    if s != [] {
      SearchResultsIff(s[..|s| - 1], query, x);
      assert s == s[..|s| - 1] + [s[|s| - 1]];
    }
  }

  /** The search keeps list order: searching a concatenation concatenates the results. */
  lemma {:induction false} SearchResultsAppend(a: seq<UserRec>, b: seq<UserRec>, query: string)
    ensures SearchResults(a + b, query) == SearchResults(a, query) + SearchResults(b, query)
    decreases |b|
  {
    if b != [] {
      var b' := b[..|b| - 1];
      assert (a + b)[..|a + b| - 1] == a + b';
      SearchResultsAppend(a, b', query);
    } else {
      assert a + b == a;
    }
  }

  /** The empty query matches every user. */
  lemma {:induction false} SearchEmptyQuery(s: seq<UserRec>)
    ensures SearchResults(s, "") == s
  {
    if s != [] {
      SearchEmptyQuery(s[..|s| - 1]);
      ContainsEmpty(Lower(s[|s| - 1].name));
      assert s == s[..|s| - 1] + [s[|s| - 1]];
    }
  }

  /** A replacement value counts only when present and not blank. */
  predicate Supplied(v: Option<string>)
  {
    v.Some? && Strip(v.value) != ""
  }

  /** The partial update: supplied text fields and a present role overwrite; the rest stay. */
  function Updated(u: UserRec, newName: Option<string>, newUsername: Option<string>,
                   newPassword: Option<string>, role: Option<int>): (r: UserRec)
    ensures r.id == u.id
  {
    UserRec(u.id,
            if Supplied(newName) then newName.value else u.name,
            if Supplied(newUsername) then newUsername.value else u.username,
            if Supplied(newPassword) then newPassword.value else u.password,
            if role.Some? then role.value else u.role)
  }

  /** Applying the same update twice is the same as applying it once, and an update that
      supplies only blanks and no role changes nothing. */
  lemma UpdatedIdempotent(u: UserRec, newName: Option<string>, newUsername: Option<string>,
                          newPassword: Option<string>, role: Option<int>)
    ensures var once := Updated(u, newName, newUsername, newPassword, role);
      Updated(once, newName, newUsername, newPassword, role) == once
    ensures !Supplied(newName) && !Supplied(newUsername) && !Supplied(newPassword) && role.None?
      ==> Updated(u, newName, newUsername, newPassword, role) == u
  {
  }

  // ---------------------------------------------------------------- the users file

  function EncodeUser(u: UserRec): Row
  {
    [IntToString(u.id), u.name, u.username, u.password, IntToString(u.role)]
  }

  /** One row per user, in list order. */
  function EncodeUsers(s: seq<UserRec>): (r: seq<Row>)
    ensures |r| == |s| && forall i :: 0 <= i < |s| ==> r[i] == EncodeUser(s[i])
  {
    seq(|s|, i requires 0 <= i < |s| => EncodeUser(s[i]))
  }

  lemma EncodeUsersSnoc(s: seq<UserRec>, u: UserRec)
    ensures EncodeUsers(s + [u]) == EncodeUsers(s) + [EncodeUser(u)]
  {
  }

  /** How one data row reads: blank, with the wrong number of cells, with an id that is not
      an integer, or with an id and (when the role is an integer too) a user. */
  datatype UserRow = Blank | WrongColumns | BadId | WithId(id: int, user: Option<UserRec>)

  function ParseUserRow(row: Row): (r: UserRow)
    ensures r.Blank? <==> row == []
    ensures r.WrongColumns? <==> row != [] && |row| != 5
    ensures r.WithId? && r.user.Some? ==> r.user.value.id == r.id
  {
    if row == [] then Blank
    else if |row| != 5 then WrongColumns
    else
      match ParseInt(row[0])
      case None => BadId
      case Some(id) =>
        WithId(id, match ParseInt(row[4])
                   case None => None
                   case Some(role) => Some(UserRec(id, row[1], row[2], row[3], role)))
  }

  /** The user a row yields when every conversion succeeds. */
  function FullParse(row: Row): Option<UserRec>
  {
    match ParseUserRow(row)
    case WithId(_, u) => u
    case _ => None
  }

  /** A saved row reads back as the user it was written from. */
  lemma ParseEncodedUser(u: UserRec)
    ensures ParseUserRow(EncodeUser(u)) == WithId(u.id, Some(u))
  {
    ParseIntToString(u.id);
    ParseIntToString(u.role);
  }

  /** The state of a load in progress: the users so far, the ids taken, the warnings. */
  datatype UserLoad = UserLoad(users: seq<UserRec>, loaded: set<int>, warnings: seq<Warning>)

  /** One step of the load loop, for the data row on file line `line`. */
  function LoadUserRow(st: UserLoad, row: Row, line: nat): (r: UserLoad)
    ensures st.users <= r.users && |r.users| <= |st.users| + 1
    ensures st.warnings <= r.warnings
    ensures |r.users| + |r.warnings| == |st.users| + |st.warnings| + (if row == [] then 0 else 1)
    ensures |r.users| == |st.users| ==> r.loaded == st.loaded
    ensures |r.users| > |st.users| ==>
      (r.users == st.users + [r.users[|st.users|]] && r.users[|st.users|].id !in st.loaded
       && r.loaded == st.loaded + {r.users[|st.users|].id})
  {
    match ParseUserRow(row)
    case Blank => st
    case WrongColumns => st.(warnings := st.warnings + [WrongColumnCount(line)])
    case BadId => st.(warnings := st.warnings + [Unparsable(line)])
    case WithId(id, u) =>
      if id in st.loaded then st.(warnings := st.warnings + [DuplicateId(line, id)])
      else if u.None? then st.(warnings := st.warnings + [Unparsable(line)])
      else UserLoad(st.users + [u.value], st.loaded + {id}, st.warnings)
  }

  /** The whole load loop over the data rows (the rows after the header); the data row at
      index `k` is file line `k + 2`. */
  function DecodeUsers(rows: seq<Row>): UserLoad
  {
    if rows == [] then UserLoad([], {}, [])
    else LoadUserRow(DecodeUsers(rows[..|rows| - 1]), rows[|rows| - 1], |rows| + 1)
  }

  /** One load step keeps the loaded-id set equal to the ids loaded, and those distinct. */
  lemma LoadStepKeepsIds(st: UserLoad, row: Row, line: nat)
    requires st.loaded == IdSet(st.users) && UniqueIds(st.users)
    ensures var r := LoadUserRow(st, row, line); r.loaded == IdSet(r.users) && UniqueIds(r.users)
  {
    var r := LoadUserRow(st, row, line);
    if |r.users| > |st.users| {
      var u := r.users[|st.users|];
      IdSetSnoc(st.users, u);
      forall i | 0 <= i < |st.users| ensures st.users[i].id != u.id {
        assert st.users[i].id in IdSet(st.users);
      }
    } else {
      assert r.users == st.users;
    }
  }

  /** The loaded-id set is the set of ids loaded, and the loaded ids are pairwise distinct. */
  lemma {:induction false} DecodeKeepsIdsUnique(rows: seq<Row>)
    ensures var st := DecodeUsers(rows); st.loaded == IdSet(st.users) && UniqueIds(st.users)
  {
    if rows != [] {
      DecodeKeepsIdsUnique(rows[..|rows| - 1]);
      LoadStepKeepsIds(DecodeUsers(rows[..|rows| - 1]), rows[|rows| - 1], |rows| + 1);
    }
  }

  /** Every loaded user is what some row fully parses to: nothing is invented, and rows
      whose id or role is not an integer contribute nothing. */
  lemma {:induction false} DecodeProvenance(rows: seq<Row>, i: nat)
    requires i < |DecodeUsers(rows).users|
    ensures exists j :: 0 <= j < |rows| && FullParse(rows[j]) == Some(DecodeUsers(rows).users[i])
  {
    var p := rows[..|rows| - 1];
    var prev := DecodeUsers(p);
    if i < |prev.users| {
      DecodeProvenance(p, i);
      var j :| 0 <= j < |p| && FullParse(p[j]) == Some(prev.users[i]);
      assert rows[j] == p[j];
    } else {
      assert FullParse(rows[|rows| - 1]) == Some(DecodeUsers(rows).users[i]);
    }
  }

  /** A user from the first row that fully parses with its id is always loaded: a later
      row with the same id never displaces it, and an earlier row with that id which failed
      to convert does not block it. */
  lemma {:induction false} DecodeKeepsFirst(rows: seq<Row>, k: nat, u: UserRec)
    requires k < |rows| && FullParse(rows[k]) == Some(u)
    requires forall j :: 0 <= j < k && FullParse(rows[j]).Some? ==> FullParse(rows[j]).value.id != u.id
    ensures u in DecodeUsers(rows).users
  {
    var p := rows[..|rows| - 1];
    var prev := DecodeUsers(p);
    if k == |rows| - 1 {
      DecodeKeepsIdsUnique(p);
      forall i | 0 <= i < |prev.users| ensures prev.users[i].id != u.id {
        DecodeProvenance(p, i);
        var j :| 0 <= j < |p| && FullParse(p[j]) == Some(prev.users[i]);
        assert rows[j] == p[j];
      }
      assert u.id !in prev.loaded;
      assert ParseUserRow(rows[k]) == WithId(u.id, Some(u));
    } else {
      DecodeKeepsFirst(p, k, u);
    }
  }

  /** A row whose id was already loaded by an earlier row adds nothing: at most one user per
      id survives the load. */
  lemma DecodeOnePerId(rows: seq<Row>, i: nat, j: nat)
    requires i < j < |DecodeUsers(rows).users|
    ensures DecodeUsers(rows).users[i].id != DecodeUsers(rows).users[j].id
  {
    DecodeKeepsIdsUnique(rows);
  }

  /** The load loop's step: the first `i + 1` rows decode as the first `i` followed by row
      `i`, which is file line `i + 2`. */
  lemma DecodeStep(rows: seq<Row>, i: nat)
    requires i < |rows|
    ensures DecodeUsers(rows[..i + 1]) == LoadUserRow(DecodeUsers(rows[..i]), rows[i], i + 2)
  {
    assert rows[..i + 1][..i] == rows[..i];
  }

  /** The number of blank rows. */
  function Blanks(rows: seq<Row>): nat
  {
    if rows == [] then 0 else Blanks(rows[..|rows| - 1]) + (if rows[|rows| - 1] == [] then 1 else 0)
  }

  /** Every non-blank row either loads a user or yields exactly one warning. */
  lemma {:induction false} DecodeAccounting(rows: seq<Row>)
    ensures |DecodeUsers(rows).users| + |DecodeUsers(rows).warnings| + Blanks(rows) == |rows|
  {
    if rows != [] {
      DecodeAccounting(rows[..|rows| - 1]);
    }
  }

  /** Loading a file with more rows appended keeps everything the shorter file loads, in
      the same order, at the front. */
  lemma {:induction false} DecodePrefix(a: seq<Row>, b: seq<Row>)
    ensures DecodeUsers(a).users <= DecodeUsers(a + b).users
    decreases |b|
  {
    if b == [] {
      assert a + b == a;
    } else {
      var b' := b[..|b| - 1];
      assert (a + b)[..|a + b| - 1] == a + b';
      DecodePrefix(a, b');
    }
  }

  /** Loading what save wrote gives back the same users with no warning, when the ids are
      pairwise distinct. */
  lemma {:induction false} DecodeEncodeUsers(s: seq<UserRec>)
    requires UniqueIds(s)
    ensures DecodeUsers(EncodeUsers(s)) == UserLoad(s, IdSet(s), [])
  {
    if s != [] {
      var s' := s[..|s| - 1];
      var last := s[|s| - 1];
      assert s == s' + [last];
      assert UniqueIds(s') && last.id !in IdSet(s') by {
        LastIdIsNew(s);
      }
      DecodeEncodeUsers(s');
      DecodeEncodeStep(s', last);
    }
  }

  /** One more record with a new id adds exactly that record to what the saved rows load. */
  lemma DecodeEncodeStep(s: seq<UserRec>, x: UserRec)
    requires DecodeUsers(EncodeUsers(s)) == UserLoad(s, IdSet(s), [])
    requires x.id !in IdSet(s)
    ensures DecodeUsers(EncodeUsers(s + [x])) == UserLoad(s + [x], IdSet(s + [x]), [])
  {
    var rows := EncodeUsers(s + [x]);
    EncodeUsersSnoc(s, x);
    assert rows[..|rows| - 1] == EncodeUsers(s);
    assert DecodeUsers(rows) == LoadUserRow(DecodeUsers(EncodeUsers(s)), EncodeUser(x), |rows| + 1);
    LoadFreshRow(s, x, |rows| + 1);
  }

  /** The row written for a record whose id is new is loaded as that record. */
  lemma LoadFreshRow(s: seq<UserRec>, x: UserRec, line: nat)
    requires x.id !in IdSet(s)
    ensures LoadUserRow(UserLoad(s, IdSet(s), []), EncodeUser(x), line) == UserLoad(s + [x], IdSet(s + [x]), [])
  {
    ParseEncodedUser(x);
    IdSetSnoc(s, x);
  }

  lemma LastIdIsNew(s: seq<UserRec>)
    requires UniqueIds(s) && s != []
    ensures s[|s| - 1].id !in IdSet(s[..|s| - 1])
  {
    var s' := s[..|s| - 1];
    forall i | 0 <= i < |s'| ensures s'[i].id != s[|s| - 1].id {
      assert s'[i] == s[i];
    }
  }

  /** A list with distinct ids keeps them distinct when an entry with a new id is appended. */
  lemma UniqueIdsSnoc(s: seq<UserRec>, x: UserRec)
    requires UniqueIds(s) && x.id !in IdSet(s)
    ensures UniqueIds(s + [x])
  {
    var t := s + [x];
    forall i, j | 0 <= i < j < |t| ensures t[i].id != t[j].id {
      assert t[i] == s[i];
      if j < |s| {
        assert t[j] == s[j];
      } else {
        assert s[i].id in IdSet(s);
      }
    }
  }

  lemma IdSetSnoc(s: seq<UserRec>, u: UserRec)
    ensures IdSet(s + [u]) == IdSet(s) + {u.id}
  {
    var t := s + [u];
    assert forall i :: 0 <= i < |s| ==> t[i] == s[i];
    assert t[|s|] == u;
  }

  /** The round trip holds exactly when the ids are pairwise distinct. */
  lemma RoundTripIff(s: seq<UserRec>)
    ensures DecodeUsers(EncodeUsers(s)).users == s <==> UniqueIds(s)
  {
    if UniqueIds(s) {
      DecodeEncodeUsers(s);
    } else {
      DecodeKeepsIdsUnique(EncodeUsers(s));
    }
  }

  /** What a load leaves in the store: the current users when the file is missing or has
      no rows at all, otherwise the users decoded from the rows after the header. */
  function LoadedUsers(fs: FileSystem, path: string, current: seq<UserRec>): seq<UserRec>
  {
    if path !in fs || fs[path] == [] then current else DecodeUsers(fs[path][1..]).users
  }

  /** A missing file leaves the store as it was. */
  lemma LoadMissingKeeps(fs: FileSystem, path: string, current: seq<UserRec>)
    requires path !in fs
    ensures LoadedUsers(fs, path, current) == current
  {
  }

  lemma DefaultFileNameIsCsv()
    ensures forall k :: 0 <= k < |DefaultFileName| ==> DefaultFileName[k] != '/'
    ensures Lower(Suffix(DefaultFileName)) == ".csv"
  {
    assert DefaultFileName == "Users" + ".csv";
    CsvName("Users");
  }

  /** Saving in overwrite mode and then loading from the path written reproduces the users,
      when their ids are pairwise distinct, whatever the store held before the load. */
  lemma SaveThenLoad(fs: FileSystem, p: string, s: seq<UserRec>, current: seq<UserRec>)
    requires UniqueIds(s)
    ensures var path := ResolvePath(p, DefaultFileName);
      LoadedUsers(WriteCsv(fs, path, false, Header, EncodeUsers(s)), path, current) == s
  {
    var path := ResolvePath(p, DefaultFileName);
    var fs' := WriteCsv(fs, path, false, Header, EncodeUsers(s));
    assert fs'[path][1..] == EncodeUsers(s);
    DecodeEncodeUsers(s);
  }

  /** Appending to an existing file never loses or reorders what loading it gave before. */
  lemma AppendKeepsLoaded(fs: FileSystem, path: string, rows: seq<Row>, current: seq<UserRec>)
    requires path in fs && fs[path] != []
    ensures LoadedUsers(fs, path, current) <= LoadedUsers(WriteCsv(fs, path, true, Header, rows), path, current)
  {
    var fs' := WriteCsv(fs, path, true, Header, rows);
    assert fs'[path][1..] == fs[path][1..] + rows;
    DecodePrefix(fs[path][1..], rows);
  }

  // ---------------------------------------------------------------- the store

  class UserService {
    var users: seq<User>
    /** The user id counter, shared by every construction of a user. */
    const ids: Allocator

    /** The counter is consistent, no user object appears twice, every stored id is below
        the counter, and no two stored users share an id. */
    ghost predicate Valid()
      reads this, ids, users
    {
      ids.Valid()
      && (forall i, j :: 0 <= i < j < |users| ==> users[i] != users[j])
      && (forall i :: 0 <= i < |users| ==> users[i].userID < ids.next)
      && UniqueIds(Snapshot())
    }

    function Snapshot(): seq<UserRec>
      reads this, users
    {
      Snap(users)
    }

    /** The store starts with the two built-in accounts, ids 1 and 2. */
    constructor (ids: Allocator)
      requires ids.Valid()
      modifies ids
      ensures Valid() && this.ids == ids
      ensures forall u :: u in users ==> fresh(u)
      ensures Snapshot() == [UserRec(1, "Daniela García", "Danieloide", "Danieloide", 1),
                             UserRec(2, "Andrés David", "Andres", "Andres", 2)]
    {
      var first := new User(ids, "Daniela García", "Danieloide", "Danieloide", 1, Some(1));
      var second := new User(ids, "Andrés David", "Andres", "Andres", 2, Some(2));
      this.ids := ids;
      users := [first, second];
    }

    /** One more than the largest id stored, or 1 for an empty store. */
    function NextId(): (r: int)
      reads this, users
      ensures forall i :: 0 <= i < |users| ==> users[i].userID < r
      ensures users == [] ==> r == 1
      ensures users != [] ==> exists i :: 0 <= i < |users| && users[i].userID == r - 1
    {
      var s := Snapshot();
      assert forall i :: 0 <= i < |users| ==> IdsOf(s)[i] == users[i].userID;
      NextAfter(IdsOf(s))
    }

    /** The first user, in list order, whose name equals `name` ignoring case. */
    method FindUserByName(name: string) returns (u: User?)
      ensures match IndexOfName(Snapshot(), name)
              case None => u == null
              case Some(k) => u == users[k]
    {
      var i := 0;
      while i < |users|
        invariant 0 <= i <= |users|
        invariant forall j :: 0 <= j < i ==> !SameName(users[j].name, name)
      {
        if Lower(users[i].name) == Lower(name) {
          return users[i];
        }
        i := i + 1;
      }
      return null;
    }

    /** Whether some user's name equals `name` ignoring case. */
    method UserExists(name: string) returns (b: bool)
      ensures b <==> IndexOfName(Snapshot(), name).Some?
      ensures b <==> exists i :: 0 <= i < |users| && SameName(users[i].name, name)
    {
      var u := FindUserByName(name);
      b := u != null;
    }

    /** Refuses a name already taken (ignoring case); otherwise appends one user whose id is
        `NextId()`. */
    method AddUser(name: string, username: string, password: string, role: int) returns (ok: bool)
      requires Valid()
      modifies this, ids
      ensures Valid()
      ensures ok <==> IndexOfName(old(Snapshot()), name).None?
      ensures !ok ==> users == old(users) && ids.next == old(ids.next)
      ensures ok ==>
        (|users| == |old(users)| + 1 && users[..|old(users)|] == old(users)
         && fresh(users[|users| - 1])
         && Snapshot() == old(Snapshot()) + [UserRec(old(NextId()), name, username, password, role)])
    {
      var exists_ := UserExists(name);
      if exists_ {
        return false;
      }
      var uid := NextId();
      var _ := Append(UserRec(uid, name, username, password, role));
      ok := true;
    }

    /** The users the search reports, in list order. */
    method SearchUser(query: string) returns (found: seq<User>)
      ensures Snap(found) == SearchResults(Snapshot(), query)
      ensures forall u :: u in found ==> u in users
    {
      found := [];
      var i := 0;
      while i < |users|
        invariant 0 <= i <= |users|
        invariant Snap(found) == SearchResults(Snapshot()[..i], query)
        invariant forall u :: u in found ==> u in users
      {
        var u := users[i];
        assert Snapshot()[..i + 1][..i] == Snapshot()[..i];
        if Contains(Lower(u.name), Lower(query)) || IntToString(u.userID) == query
           || Contains(Lower(u.username), Lower(query)) {
          found := found + [u];
        }
        i := i + 1;
      }
      assert Snapshot()[..|users|] == Snapshot();
    }

    /** Overwrites the supplied fields of one user. */
    static method ApplyUpdate(u: User, newName: Option<string>, newUsername: Option<string>,
                              newPassword: Option<string>, role: Option<int>)
      modifies u
      ensures u.Rec() == Updated(old(u.Rec()), newName, newUsername, newPassword, role)
    {
      ghost var r := u.Rec();
      var setName, setUsername, setPassword := Supplied(newName), Supplied(newUsername),
                                                Supplied(newPassword);
      if setName {
        u.SetName(newName.value);
      }
      if setUsername {
        u.SetUsername(newUsername.value);
      }
      if setPassword {
        u.SetPassword(newPassword.value);
      }
      if role.Some? {
        u.SetRole(role.value);
      }
      assert u.userID == r.id;
      assert u.name == if setName then newName.value else r.name;
      assert u.username == if setUsername then newUsername.value else r.username;
      assert u.password == if setPassword then newPassword.value else r.password;
      assert u.role == if role.Some? then role.value else r.role;
    }

    /** Finds the user by name and overwrites only the supplied fields. */
    method UpdateUser(name: string, newName: Option<string>, newUsername: Option<string>,
                      newPassword: Option<string>, role: Option<int>) returns (ok: bool)
      requires Valid()
      modifies users
      ensures Valid() && users == old(users)
      ensures ok <==> IndexOfName(old(Snapshot()), name).Some?
      ensures match IndexOfName(old(Snapshot()), name)
              case None => Snapshot() == old(Snapshot())
              case Some(k) =>
                Snapshot() == old(Snapshot())[k := Updated(old(Snapshot())[k], newName, newUsername,
                                                           newPassword, role)]
    {
      var u := FindUserByName(name);
      if u == null {
        return false;
      }
      ghost var before := Snapshot();
      ghost var k := IndexOfName(before, name).value;
      assert u == users[k] && before[k] == u.Rec();
      ApplyUpdate(u, newName, newUsername, newPassword, role);
      assert u.Rec() == Updated(before[k], newName, newUsername, newPassword, role);
      forall j | 0 <= j < |users| && j != k ensures users[j].Rec() == before[j] {
        assert users[j] != u;
      }
      assert Snapshot() == before[k := u.Rec()];
      ok := true;
    }

    /** Writes the users file: the header when the file is new or append is off, then one
        row per user in list order. */
    method SaveCSV(fs: FileSystem, filePath: string, append: bool) returns (out: FileSystem)
      ensures out == WriteCsv(fs, ResolvePath(filePath, DefaultFileName), append, Header,
                              EncodeUsers(Snapshot()))
    {
      var path := ResolvePath(filePath, DefaultFileName);
      var newFile := path !in fs;
      var content: seq<Row> := [];
      if append && !newFile {
        content := fs[path];
      }
      if newFile || !append {
        content := content + [Header];
      }
      assert content == if append && path in fs then fs[path] else [Header];
      content := WriteRows(content);
      out := fs[path := content];
    }

    /** The row loop of the save: one row per user, in list order, after `content`. */
    method WriteRows(content0: seq<Row>) returns (content: seq<Row>)
      ensures content == content0 + EncodeUsers(Snapshot())
    {
      content := content0;
      ghost var s := Snapshot();
      var i := 0;
      while i < |users|
        invariant 0 <= i <= |users|
        invariant content == content0 + EncodeUsers(s[..i])
      {
        var row := EncodeUser(users[i].Rec());
        assert s[..i + 1] == s[..i] + [s[i]];
        EncodeUsersSnoc(s[..i], s[i]);
        content := content + [row];
        i := i + 1;
      }
      assert s[..i] == s;
    }

    /** Constructs a user with the given field values, its id taken as given, and appends
        it to the list. */
    method Append(r: UserRec) returns (user: User)
      requires Valid() && r.id !in IdSet(Snap(users))
      modifies this, ids
      ensures Valid()
      ensures fresh(user) && users == old(users) + [user]
      ensures Snap(users) == old(Snap(users)) + [r]
    {
      ghost var before := Snap(users);
      user := new User(ids, r.name, r.username, r.password, r.role, Some(r.id));
      assert Snap(users) == before;
      users := users + [user];
      assert Snap(users) == before + [r];
      UniqueIdsSnoc(before, r);
    }

    /** One pass of the load loop: the data row on file line `line`. */
    method LoadRow(row: Row, line: nat, loaded0: set<int>, warnings0: seq<Warning>)
      returns (loaded: set<int>, warnings: seq<Warning>)
      requires Valid() && loaded0 == IdSet(Snap(users))
      modifies this, ids
      ensures Valid()
      ensures UserLoad(Snap(users), loaded, warnings)
              == LoadUserRow(UserLoad(old(Snap(users)), loaded0, warnings0), row, line)
    {
      ghost var st := UserLoad(Snap(users), loaded0, warnings0);
      loaded, warnings := loaded0, warnings0;
      match ParseUserRow(row) {
        case Blank =>
        case WrongColumns =>
          warnings := warnings + [WrongColumnCount(line)];
          assert LoadUserRow(st, row, line) == st.(warnings := warnings);
        case BadId =>
          warnings := warnings + [Unparsable(line)];
          assert LoadUserRow(st, row, line) == st.(warnings := warnings);
        case WithId(id, rec) =>
          if id in loaded {
            warnings := warnings + [DuplicateId(line, id)];
            assert LoadUserRow(st, row, line) == st.(warnings := warnings);
          } else if rec.None? {
            warnings := warnings + [Unparsable(line)];
            assert LoadUserRow(st, row, line) == st.(warnings := warnings);
          } else {
            var r := rec.value;
            var _ := Append(r);
            loaded := loaded + {id};
            assert LoadUserRow(st, row, line) == UserLoad(st.users + [r], loaded, warnings);
          }
      }
    }

    /** The load loop: the users become those decoded from the data rows. */
    method LoadRows(data: seq<Row>) returns (warnings: seq<Warning>)
      requires ids.Valid()
      modifies this, ids
      ensures Valid()
      ensures Snapshot() == DecodeUsers(data).users && warnings == DecodeUsers(data).warnings
    {
      users := [];
      var loaded: set<int> := {};
      warnings := [];
      var i := 0;
      assert data[..0] == [];
      while i < |data|
        invariant 0 <= i <= |data|
        invariant Valid()
        invariant DecodeUsers(data[..i]) == UserLoad(Snap(users), loaded, warnings)
      {
        DecodeStep(data, i);
        DecodeKeepsIdsUnique(data[..i]);
        loaded, warnings := LoadRow(data[i], i + 2, loaded, warnings);
        i := i + 1;
      }
      assert data[..|data|] == data;
    }

    /** Replaces the users by those decoded from the file; a missing or completely empty
        file leaves the store as it was. Returns the warnings printed. */
    method LoadCSV(fs: FileSystem, filePath: string) returns (warnings: seq<Warning>)
      requires Valid()
      modifies this, ids
      ensures Valid()
      ensures Snapshot() == LoadedUsers(fs, filePath, old(Snapshot()))
      ensures filePath !in fs || fs[filePath] == [] ==>
        users == old(users) && warnings == [] && ids.next == old(ids.next)
      ensures filePath in fs && fs[filePath] != [] ==>
        warnings == DecodeUsers(fs[filePath][1..]).warnings
    {
      if filePath !in fs {
        return [];
      }
      var lines := fs[filePath];
      if lines == [] {
        return [];
      }
      warnings := LoadRows(lines[1..]);
    }

    /** Saving in overwrite mode and loading the file just written leaves the users as they
        were, with no warnings: the ids of a store are always distinct. */
    method SaveThenLoadCSV(fs: FileSystem, filePath: string) returns (out: FileSystem, warnings: seq<Warning>)
      requires Valid()
      modifies this, ids
      ensures Valid()
      ensures out == WriteCsv(fs, ResolvePath(filePath, DefaultFileName), false, Header,
                              EncodeUsers(old(Snapshot())))
      ensures Snapshot() == old(Snapshot()) && warnings == []
    {
      ghost var s := Snapshot();
      out := SaveCSV(fs, filePath, false);
      var path := ResolvePath(filePath, DefaultFileName);
      warnings := LoadCSV(out, path);
      assert out[path][1..] == EncodeUsers(s);
      DecodeEncodeUsers(s);
    }
  }
}
