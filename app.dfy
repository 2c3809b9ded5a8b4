/**
 * The small lookups of `SolarisProApp` outside the assistant: the login
 * check of `handleAuth` against the built-in `usersDB`, the section titles
 * and toast icons looked up with a default, and `capitalize`.
 */
module Solaris {
  import opened Wrappers
  import opened Text

  /** A `usersDB` entry, with the fields the login and the welcome use. */
  datatype User = User(username: string, password: string, avatar: string, role: string, email: string)

  const UsersDB: seq<User> := [
    User("admin", "solaire2024", "AD", "Administrateur", "admin@solaris.tn"),
    User("user", "user2024", "US", "Utilisateur", "user@solaris.tn"),
    User("tech", "tech2024", "TC", "Technicien", "tech@solaris.tn"),
    User("demo", "demo123", "DE", "Démo", "demo@solaris.tn")]

  /** `u.username === username && u.password === password` */
  predicate Matches(u: User, username: string, password: string)
  {
    u.username == username && u.password == password
  }

  /** `db.find(...)` from index `i`: the index of the first entry that matches. */
  function FindUser(db: seq<User>, username: string, password: string, i: nat): (r: Option<nat>)
    requires i <= |db|
    decreases |db| - i
    ensures r.Some? ==> i <= r.value < |db| && Matches(db[r.value], username, password)
    ensures r.Some? ==> forall j :: i <= j < r.value ==> !Matches(db[j], username, password)
    ensures r.None? ==> forall j :: i <= j < |db| ==> !Matches(db[j], username, password)
  {
    if i == |db| then None
    else if Matches(db[i], username, password) then Some(i)
    else FindUser(db, username, password, i + 1)
  }

  /**
   * The login check: the typed user name is trimmed, the password is not,
   * and the first entry matching both exactly is the user.
   */
  function Authenticate(rawUsername: string, password: string): (r: Option<User>)
    ensures r.Some? <==> exists i :: 0 <= i < |UsersDB| && Matches(UsersDB[i], Trim(rawUsername), password)
    ensures r.Some? ==> r.value in UsersDB && Matches(r.value, Trim(rawUsername), password)
  {
    match FindUser(UsersDB, Trim(rawUsername), password, 0)
    case Some(i) => Some(UsersDB[i])
    case None => None
  }

  /** No two built-in accounts share a user name, so at most one entry can match. */
  lemma UsernamesDistinct()
    ensures forall i, j :: 0 <= i < j < |UsersDB| ==> UsersDB[i].username != UsersDB[j].username
  {
  }

  /** A successful login is determined by the user name alone: it is that name's entry. */
  lemma AuthenticatedIsNamedUser(rawUsername: string, password: string, i: nat)
    requires i < |UsersDB| && UsersDB[i].username == Trim(rawUsername)
    ensures Authenticate(rawUsername, password).Some? <==> password == UsersDB[i].password
    ensures Authenticate(rawUsername, password).Some? ==> Authenticate(rawUsername, password) == Some(UsersDB[i])
  {
    UsernamesDistinct();
    if password == UsersDB[i].password {
      assert Matches(UsersDB[i], Trim(rawUsername), password);
    }
  }

  /** The padded name " demo " trims to "demo". */
  lemma TrimDemo()
    ensures Trim(" demo ") == "demo"
  {
    assert TrimStart(" demo ") == "demo " by {
      assert " demo "[1..] == "demo ";
      assert TrimStart("demo ") == "demo ";
    }
    assert TrimEnd("demo ") == "demo" by {
      assert "demo "[..4] == "demo";
      assert TrimEnd("demo") == "demo";
    }
  }

  /** Spaces around the user name are forgiven. */
  lemma PaddedNameAccepted()
    ensures Authenticate(" demo ", "demo123") == Some(UsersDB[3])
  {
    TrimDemo();
    AuthenticatedIsNamedUser(" demo ", "demo123", 3);
  }

  /** Spaces around the password are not: it must match exactly. */
  lemma PaddedPasswordRejected()
    ensures Authenticate("admin", "solaire2024 ") == None
  {
    assert UsersDB[0].username == Trim("admin") by {
      TrimKeepsUnpadded("admin");
    }
    assert UsersDB[0].password != "solaire2024 " by {
      assert |UsersDB[0].password| == 11;
    }
    AuthenticatedIsNamedUser("admin", "solaire2024 ", 0);
  }

  /** `table[key]` on an object literal: the value stored under `key`, if any. */
  function Lookup(table: seq<(string, string)>, key: string): (r: Option<string>)
    ensures r.None? <==> forall i :: 0 <= i < |table| ==> table[i].0 != key
    ensures r.Some? ==> exists i :: 0 <= i < |table| && table[i] == (key, r.value)
  {
    if table == [] then None
    else if table[0].0 == key then Some(table[0].1)
    else Lookup(table[1..], key)
  }

  /** `table[key] || fallback`: the stored value unless it is missing or empty. */
  function LookupOr(table: seq<(string, string)>, key: string, fallback: string): (r: string)
    ensures (forall i :: 0 <= i < |table| ==> table[i].0 != key) ==> r == fallback
    ensures r == fallback || exists i :: 0 <= i < |table| && table[i] == (key, r) && r != ""
    ensures DistinctKeys(table) ==>
      forall i :: 0 <= i < |table| && table[i].0 == key && table[i].1 != "" ==> r == table[i].1
  {
    LookupFindsStored(table, key);
    match Lookup(table, key)
    case Some(v) => if v != "" then v else fallback
    case None => fallback
  }

  const SectionTitles: seq<(string, string)> := [
    ("dashboard", "Tableau de bord"),
    ("analytics", "Analytics Avancées"),
    ("production", "Production"),
    ("battery", "Batterie"),
    ("water", "Réservoir d'eau"),
    ("automation", "Automatisation"),
    ("settings", "Paramètres"),
    ("payments", "Méthodes de Paiement")]

  const DefaultTitle: string := "Système Intelligent"

  /** `getSectionTitle` */
  function SectionTitle(sectionName: string): string
  {
    LookupOr(SectionTitles, sectionName, DefaultTitle)
  }

  /** No key appears twice in a lookup table. */
  predicate DistinctKeys(table: seq<(string, string)>)
  {
    forall i, j :: 0 <= i < j < |table| ==> table[i].0 != table[j].0
  }

  /** In a table without repeated keys, looking up a key finds the value stored beside it. */
  lemma LookupDistinct(table: seq<(string, string)>, key: string, i: nat)
    requires DistinctKeys(table) && i < |table| && table[i].0 == key
    ensures Lookup(table, key) == Some(table[i].1)
  {
    if i > 0 {
      assert table[0].0 != key;
      assert DistinctKeys(table[1..]) by {
        forall a, b | 0 <= a < b < |table| - 1 ensures table[1..][a].0 != table[1..][b].0 {
          assert table[1..][a] == table[a + 1] && table[1..][b] == table[b + 1];
        }
      }
      LookupDistinct(table[1..], key, i - 1);
    }
  }

  /** `LookupDistinct` for every position holding the key. */
  lemma LookupFindsStored(table: seq<(string, string)>, key: string)
    ensures DistinctKeys(table) ==>
      forall i :: 0 <= i < |table| && table[i].0 == key ==> Lookup(table, key) == Some(table[i].1)
  {
    if DistinctKeys(table) {
      forall i | 0 <= i < |table| && table[i].0 == key
        ensures Lookup(table, key) == Some(table[i].1)
      {
        LookupDistinct(table, key, i);
      }
    }
  }

  lemma SectionKeysDistinct()
    ensures DistinctKeys(SectionTitles)
    ensures forall i :: 0 <= i < |SectionTitles| ==> SectionTitles[i].1 != ""
  {
  }

  /** An unknown section gets the default title; a known one gets its own. */
  lemma SectionTitleSpec(sectionName: string)
    ensures (forall i :: 0 <= i < |SectionTitles| ==> SectionTitles[i].0 != sectionName) ==>
      SectionTitle(sectionName) == DefaultTitle
    ensures forall i :: 0 <= i < |SectionTitles| && SectionTitles[i].0 == sectionName ==>
      SectionTitle(sectionName) == SectionTitles[i].1
    ensures SectionTitle(sectionName) != ""
  {
    SectionKeysDistinct();
  }

  const ToastIcons: seq<(string, string)> := [
    ("success", "fa-check-circle"),
    ("error", "fa-exclamation-circle"),
    ("warning", "fa-exclamation-triangle"),
    ("info", "fa-info-circle")]

  /** `getToastIcon`: an unknown type falls back to the `info` icon. */
  function ToastIcon(toastType: string): string
  {
    LookupOr(ToastIcons, toastType, ToastIcons[3].1)
  }

  lemma ToastKeysDistinct()
    ensures DistinctKeys(ToastIcons)
    ensures forall i :: 0 <= i < |ToastIcons| ==> ToastIcons[i].1 != ""
  {
  }

  /**
   * A known toast type gets its own icon, an unknown one the `info` icon,
   * so every type gets one of the four.
   */
  lemma ToastIconSpec(toastType: string)
    ensures forall i :: 0 <= i < |ToastIcons| && ToastIcons[i].0 == toastType ==>
      ToastIcon(toastType) == ToastIcons[i].1
    ensures (forall i :: 0 <= i < |ToastIcons| ==> ToastIcons[i].0 != toastType) ==>
      ToastIcon(toastType) == "fa-info-circle"
    ensures exists i :: 0 <= i < |ToastIcons| && ToastIcon(toastType) == ToastIcons[i].1
  {
    ToastKeysDistinct();
    var r := ToastIcon(toastType);
    if r != ToastIcons[3].1 {
      var i :| 0 <= i < |ToastIcons| && ToastIcons[i] == (toastType, r);
    }
  }

  /** `str.charAt(0).toUpperCase() + str.slice(1)` */
  function Capitalize(s: string): (r: string)
    ensures |r| == |s|
    ensures s != [] ==> r[0] == Upper(s[0]) && r[1..] == s[1..]
  {
    if s == [] then [] else [Upper(s[0])] + s[1..]
  }

  /**
   * Capitalising changes the case of the first letter only: lowering the
   * result gives back the lowered input (except for the two Latin-1 letters
   * whose capitals lie outside Latin-1).
   */
  lemma CapitalizeOnlyChangesCase(s: string)
    requires s != [] ==> s[0] != '\U{00FF}' && s[0] != '\U{00B5}'
    ensures LowerStr(Capitalize(s)) == LowerStr(s)
  {
    if s != [] {
      var r := Capitalize(s);
      assert Lower(r[0]) == Lower(s[0]);
      forall i | 1 <= i < |s| ensures LowerStr(r)[i] == LowerStr(s)[i] {
        assert r[i] == r[1..][i - 1] == s[1..][i - 1] == s[i];
      }
    }
  }

  /** Capitalising twice is capitalising once. */
  lemma CapitalizeIdempotent(s: string)
    ensures Capitalize(Capitalize(s)) == Capitalize(s)
  {
  }

  /** The login screen's state: who is signed in. */
  class Session {
    var currentUser: Option<User>

    constructor ()
      ensures currentUser == None
    {
      currentUser := None;
    }

    /**
     * `handleAuth`: on a match the user is signed in and greeted by the
     * capitalised user name; otherwise nothing changes.
     */
    method HandleAuth(rawUsername: string, password: string) returns (welcome: Option<string>)
      modifies this
      ensures Authenticate(rawUsername, password).Some? ==>
        && currentUser == Authenticate(rawUsername, password)
        && welcome == Some("Bienvenue " + Capitalize(currentUser.value.username) + " !")
      ensures Authenticate(rawUsername, password).None? ==> currentUser == old(currentUser) && welcome == None
    {
      var username := Trim(rawUsername);
      var found := FindUser(UsersDB, username, password, 0);
      if found.Some? {
        var user := UsersDB[found.value];
        currentUser := Some(user);
        welcome := Some("Bienvenue " + Capitalize(user.username) + " !");
      } else {
        welcome := None;
      }
    }
  }
}
