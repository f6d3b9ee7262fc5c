/** The login form (src/container/Login/Login.js): the submitted school id and password are
    looked up in the bundled user list, and a match navigates to the classes page. */
module Login {
  import opened Js
  import opened Seqs

  /** A user entry of the bundled list; its fields keep whatever JSON type they were written
      with, so a numeric id is not the string of its digits. */
  datatype User = User(schoolId: JsValue, password: JsValue)

  /** `u.schoolId === values.schoolId && u.password === values.password` for the two strings
      typed into the form: exact, case-sensitive and type-strict. */
  function Matches(schoolId: string, password: string): User -> bool
  {
    (u: User) => u.schoolId == Str(schoolId) && u.password == Str(password)
  }

  predicate HasMatch(users: seq<User>, schoolId: string, password: string)
  {
    exists k :: 0 <= k < |users| && users[k].schoolId == Str(schoolId) && users[k].password == Str(password)
  }

  /** `onFinish`: the page navigated to, or `None` for invalid credentials. */
  function OnFinish(users: seq<User>, schoolId: string, password: string): (target: Option<string>)
    ensures target == Some("/classes") <==> HasMatch(users, schoolId, password)
    ensures target.None? <==> !HasMatch(users, schoolId, password)
  {
    var user := Find(users, Matches(schoolId, password));
    if user.Some? then Some("/classes") else None
  }

  /** Only whether a matching user exists decides the outcome, not where it is in the list. */
  lemma OrderIndependent(a: seq<User>, b: seq<User>, schoolId: string, password: string)
    requires multiset(a) == multiset(b)
    ensures OnFinish(a, schoolId, password) == OnFinish(b, schoolId, password)
  {
    var u := User(Str(schoolId), Str(password));
    if HasMatch(a, schoolId, password) {
      var k :| 0 <= k < |a| && a[k] == u;
      assert u in multiset(a);
      assert u in b;
    }
    if HasMatch(b, schoolId, password) {
      var k :| 0 <= k < |b| && b[k] == u;
      assert u in multiset(b);
      assert u in a;
    }
  }
}
