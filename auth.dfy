/** The session of src/context/AuthContext.tsx: the name-to-account normalisation, the
    profile read after sign-in, and the `register`, `login` and `logout` transitions of the
    provider's `isAuthenticated` and `user` state. The authentication service and the
    `users` table are not modelled; their answers are parameters of the transitions. */
module Auth {
  import opened Wrappers
  import opened Strings

  /** `group: string | number`: the text chosen at registration, or the `group_id`
      column read back from the profile (a number, or null). */
  datatype GroupField = GroupText(text: string) | GroupNumber(number: int) | GroupNull

  datatype User = User(id: string, name: string, programme: string, group: GroupField)

  /** The answer of `signUp` or `signInWithPassword`: whether `error` is set, and the id of
      `data.user` (None when there is no user). */
  datatype AuthResponse = AuthResponse(error: bool, userId: Option<string>)

  /** The row `register` inserts into `users`; `group_id: parseInt(group)` is null for NaN. */
  datatype ProfileInsert = ProfileInsert(id: string, name: string, programme: string, groupId: Option<int>)

  /** The answer of the profile select: an error, no row, or the row. */
  datatype ProfileQuery = QueryError | NoRow | ProfileRow(id: string, name: string, programme: string, groupId: Option<int>)

  /** `fetchUserProfile`: the row as a user, with `group` the column's value; null on an
      error or when there is no row. */
  function FetchUserProfile(q: ProfileQuery): (r: Option<User>)
    ensures r.Some? <==> q.ProfileRow?
    ensures r.Some? ==> r.value.id == q.id && r.value.name == q.name && r.value.programme == q.programme
    ensures r.Some? ==> r.value.group == if q.groupId.Some? then GroupNumber(q.groupId.value) else GroupNull
  {
    match q
    case ProfileRow(id, name, programme, groupId) =>
      Some(User(id, name, programme, if groupId.Some? then GroupNumber(groupId.value) else GroupNull))
    case _ => None
  }

  // Name normalisation.

  predicate IsUpper(c: char) { 'A' <= c <= 'Z' }

  /** `toLowerCase` on one character, for the ASCII letters. */
  function LowerChar(c: char): (r: char)
    ensures !IsUpper(r)
    ensures IsJsWhitespace(r) == IsJsWhitespace(c)
    ensures !IsUpper(c) ==> r == c
    ensures IsUpper(c) ==> r as int == c as int - 'A' as int + 'a' as int
  {
    if IsUpper(c) then (c as int - 'A' as int + 'a' as int) as char else c
  }

  /** `toLowerCase` on a string: the same length, no upper-case letter left. */
  function LowerCase(s: string): (r: string)
    ensures |r| == |s|
    ensures forall i :: 0 <= i < |r| ==> !IsUpper(r[i])
  {
    seq(|s|, i requires 0 <= i < |s| => LowerChar(s[i]))
  }

  /** `replace(/\s+/g, '')`: every whitespace character dropped, the others kept in order. */
  function RemoveWhitespace(s: string): (r: string)
    ensures forall i :: 0 <= i < |r| ==> !IsJsWhitespace(r[i])
    ensures |r| <= |s|
  {
    if s == [] then []
    else (if IsJsWhitespace(s[0]) then [] else [s[0]]) + RemoveWhitespace(s[1..])
  }

  /** `name.trim().toLowerCase().replace(/\s+/g, '')`. */
  function SafeName(name: string): (r: string)
    ensures forall i :: 0 <= i < |r| ==> !IsJsWhitespace(r[i]) && !IsUpper(r[i])
  {
    var r := RemoveWhitespace(LowerCase(Trim(name)));
    assert forall i :: 0 <= i < |r| ==> !IsUpper(r[i]) by {
      RemoveWhitespaceKeeps(LowerCase(Trim(name)), r, c => !IsUpper(c));
    }
    r
  }

  /** The e-mail address an account is registered and looked up under. */
  function FakeEmail(name: string): (r: string)
    ensures forall i :: 0 <= i < |r| ==> !IsJsWhitespace(r[i]) && !IsUpper(r[i])
  {
    SafeName(name) + "@myapp.local"
  }

  /** A property of every character of `s` also holds of every character left by
      `RemoveWhitespace`. */
  lemma {:induction false} RemoveWhitespaceKeeps(s: string, r: string, p: char -> bool)
    requires r == RemoveWhitespace(s)
    requires forall i :: 0 <= i < |s| ==> p(s[i])
    ensures forall i :: 0 <= i < |r| ==> p(r[i])
  {
    if s != [] {
      RemoveWhitespaceKeeps(s[1..], RemoveWhitespace(s[1..]), p);
    }
  }

  lemma {:induction false} RemoveWhitespaceAppend(a: string, b: string)
    ensures RemoveWhitespace(a + b) == RemoveWhitespace(a) + RemoveWhitespace(b)
  {
    if a == [] {
      assert a + b == b;
    } else {
      assert (a + b)[1..] == a[1..] + b;
      RemoveWhitespaceAppend(a[1..], b);
    }
  }

  /** A string without whitespace is left as it is. */
  lemma {:induction false} RemoveWhitespaceOfClean(s: string)
    requires forall i :: 0 <= i < |s| ==> !IsJsWhitespace(s[i])
    ensures RemoveWhitespace(s) == s
  {
    if s != [] {
      RemoveWhitespaceOfClean(s[1..]);
    }
  }

  /** A string of whitespace only is removed entirely. */
  lemma {:induction false} RemoveWhitespaceOfBlank(s: string)
    requires forall i :: 0 <= i < |s| ==> IsJsWhitespace(s[i])
    ensures RemoveWhitespace(s) == []
  {
    if s != [] {
      RemoveWhitespaceOfBlank(s[1..]);
    }
  }

  /** `trim` cuts a run of whitespace off the front. */
  lemma {:induction false} TrimStartCuts(s: string)
    ensures |TrimStart(s)| <= |s|
    ensures s == s[..|s| - |TrimStart(s)|] + TrimStart(s)
    ensures forall i :: 0 <= i < |s| - |TrimStart(s)| ==> IsJsWhitespace(s[i])
  {
    if s != [] && IsJsWhitespace(s[0]) {
      TrimStartCuts(s[1..]);
      var k := |s| - |TrimStart(s)|;
      assert s[1..][..k - 1] == s[1..k];
    }
  }

  /** ... and a run of whitespace off the back. */
  lemma {:induction false} TrimEndCuts(s: string)
    ensures |TrimEnd(s)| <= |s|
    ensures s == TrimEnd(s) + s[|TrimEnd(s)|..]
    ensures forall i :: |TrimEnd(s)| <= i < |s| ==> IsJsWhitespace(s[i])
  {
    if s != [] && IsJsWhitespace(s[|s| - 1]) {
      var init := s[..|s| - 1];
      TrimEndCuts(init);
      assert s == init + [s[|s| - 1]];
      assert init[|TrimEnd(init)|..] + [s[|s| - 1]] == s[|TrimEnd(s)|..];
    }
  }

  /** Removing all whitespace makes the `trim` before it redundant. */
  lemma RemoveWhitespaceOfTrim(s: string)
    ensures RemoveWhitespace(Trim(s)) == RemoveWhitespace(s)
  {
    var t := TrimStart(s);
    TrimStartCuts(s);
    TrimEndCuts(t);
    var front, back := s[..|s| - |t|], t[|TrimEnd(t)|..];
    RemoveWhitespaceOfBlank(front);
    RemoveWhitespaceOfBlank(back);
    RemoveWhitespaceAppend(front, t);
    RemoveWhitespaceAppend(TrimEnd(t), back);
  }

  lemma LowerCaseAppend(a: string, b: string)
    ensures LowerCase(a + b) == LowerCase(a) + LowerCase(b)
  {
  }

  /** Lower-casing and removing whitespace can be done in either order. */
  lemma {:induction false} LowerCaseRemoveWhitespace(s: string)
    ensures RemoveWhitespace(LowerCase(s)) == LowerCase(RemoveWhitespace(s))
  {
    if s != [] {
      LowerCaseRemoveWhitespace(s[1..]);
      assert LowerCase(s) == [LowerChar(s[0])] + LowerCase(s[1..]);
      assert LowerCase(s)[1..] == LowerCase(s[1..]);
      LowerCaseAppend(if IsJsWhitespace(s[0]) then [] else [s[0]], RemoveWhitespace(s[1..]));
    }
  }

  /** The account name is the name lower-cased with all whitespace removed, wherever in
      the name it stands. */
  lemma SafeNameMeaning(name: string)
    ensures SafeName(name) == LowerCase(RemoveWhitespace(name))
  {
    LowerCaseRemoveWhitespace(Trim(name));
    RemoveWhitespaceOfTrim(name);
  }

  /** Normalising an account name again changes nothing. */
  lemma SafeNameIdempotent(name: string)
    ensures SafeName(SafeName(name)) == SafeName(name)
  {
    var s := SafeName(name);
    SafeNameMeaning(s);
    RemoveWhitespaceOfClean(s);
    assert LowerCase(s) == s;
  }

  /** Two names reach the same account exactly when they agree once lower-cased with
      their whitespace removed. */
  lemma SameAccount(a: string, b: string)
    ensures FakeEmail(a) == FakeEmail(b) <==> LowerCase(RemoveWhitespace(a)) == LowerCase(RemoveWhitespace(b))
  {
    SafeNameMeaning(a);
    SafeNameMeaning(b);
    var x, y := SafeName(a), SafeName(b);
    if FakeEmail(a) == FakeEmail(b) {
      assert |x| == |y|;
      assert x == FakeEmail(a)[..|x|] && y == FakeEmail(b)[..|y|];
    }
  }

  // The provider's state.

  class AuthState {
    var isAuthenticated: bool
    var user: Option<User>

    /** The provider is authenticated exactly when it holds a user. */
    ghost predicate Valid()
      reads this
    {
      isAuthenticated == user.Some?
    }

    /** `useState(false)` and `useState(null)`. */
    constructor()
      ensures Valid() && !isAuthenticated && user == None
    {
      isAuthenticated := false;
      user := None;
    }

    /** `register`: sign up under the name's e-mail address, insert the profile row, and on
        success store the user with the group text as chosen. `signUp` answers the sign-up
        for an address and password; `insertFails` says whether the insert of a row fails. */
    method Register(name: string, programme: string, group: string, password: string,
                    signUp: (string, string) -> AuthResponse, insertFails: ProfileInsert -> bool)
      returns (ok: bool)
      requires Valid()
      modifies this
      ensures Valid()
      ensures var r := signUp(FakeEmail(name), password);
        ok == (!r.error && r.userId.Some?
               && !insertFails(ProfileInsert(r.userId.value, name, programme, ParseInt(group))))
      ensures ok ==> (isAuthenticated &&
        user == Some(User(signUp(FakeEmail(name), password).userId.value, name, programme, GroupText(group))))
      ensures !ok ==> isAuthenticated == old(isAuthenticated) && user == old(user)
    {
      var response := signUp(FakeEmail(name), password);
      if response.error || response.userId.None? {
        return false;
      }
      var id := response.userId.value;
      if insertFails(ProfileInsert(id, name, programme, ParseInt(group))) {
        return false;
      }
      isAuthenticated := true;
      user := Some(User(id, name, programme, GroupText(group)));
      ok := true;
    }

    /** `login`: sign in under the name's e-mail address, then read the profile of the
        signed-in user; both must succeed. `fetchProfile` answers the select for an id. */
    method Login(name: string, password: string,
                 signIn: (string, string) -> AuthResponse, fetchProfile: string -> ProfileQuery)
      returns (ok: bool)
      requires Valid()
      modifies this
      ensures Valid()
      ensures var r := signIn(FakeEmail(name), password);
        ok == (!r.error && r.userId.Some? && FetchUserProfile(fetchProfile(r.userId.value)).Some?)
      ensures ok ==> (isAuthenticated &&
        user == FetchUserProfile(fetchProfile(signIn(FakeEmail(name), password).userId.value)))
      ensures !ok ==> isAuthenticated == old(isAuthenticated) && user == old(user)
    {
      var response := signIn(FakeEmail(name), password);
      if response.error || response.userId.None? {
        return false;
      }
      var profile := FetchUserProfile(fetchProfile(response.userId.value));
      if profile.None? {
        return false;
      }
      isAuthenticated := true;
      user := profile;
      ok := true;
    }

    /** `logout`: the sign-out is awaited and its answer ignored; the session is cleared. */
    method Logout()
      modifies this
      ensures Valid() && !isAuthenticated && user == None
    {
      isAuthenticated := false;
      user := None;
    }
  }
}
