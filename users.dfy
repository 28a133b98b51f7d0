/** `UserAPI` (app/rest/user_api.py): registration (POST /users), a chain of
    guards and one insert into the `users` collection, and the lookup of the
    caller's name (GET /users). The parsed JSON body, the id the database
    assigns and the password digest function are inputs. */
module Users {
  import opened Wrappers

  /** One document of `users`. `name` is None where the body had none
      (stored as null); `password` is the digest of the password. */
  datatype User = User(id: Id, email: string, name: Option<string>, password: string)

  datatype UserError =
    | MissingEmail
    | InvalidEmail(email: string)
    | TooLongEmail
    | EmailExists(email: string)
    | TooLongPassword
    | TooLongName
    | UserNotFound

  /** The message of each failure. The two that name the address give it
      back verbatim, and no two failures share a message. */
  function Message(e: UserError): (m: string)
    ensures m == "Missing required data (email)" <==> e == MissingEmail
    ensures m == "Too long email" <==> e == TooLongEmail
    ensures m == "Too long password" <==> e == TooLongPassword
    ensures m == "Too long name" <==> e == TooLongName
    ensures m == "User not found" <==> e == UserNotFound
    ensures e.InvalidEmail? ==> m == "Invalid email " + e.email
    ensures e.EmailExists? ==> m == "Email " + e.email + " already exists"
  {
    match e
    case MissingEmail => "Missing required data (email)"
    case InvalidEmail(email) =>
      var m := "Invalid email " + email;
      assert m[0] == 'I';
      m
    case TooLongEmail => "Too long email"
    case EmailExists(email) =>
      var m := "Email " + email + " already exists";
      assert m[0] == 'E';
      m
    case TooLongPassword => "Too long password"
    case TooLongName => "Too long name"
    case UserNotFound => "User not found"
  }

  /** The status passed explicitly; None where the handler leaves the default. */
  function Status(e: UserError): (r: Option<int>)
    ensures r == Some(400) <==> e.EmailExists?
    ensures r == Some(404) <==> e == UserNotFound
    ensures r.Some? ==> r == Some(400) || r == Some(404)
  {
    match e
    case EmailExists(_) => Some(400)
    case UserNotFound => Some(404)
    case _ => None
  }

  /** The application error code, given only for a duplicate email. */
  function Code(e: UserError): (r: Option<int>)
    ensures r.Some? <==> e.EmailExists?
    ensures r.Some? ==> r.value == 100
  {
    if e.EmailExists? then Some(100) else None
  }

  const MaxEmailLength: int := 120
  const MaxPasswordLength: int := 20
  const MaxNameLength: int := 120

  // ---------------------------------------------------------------------
  // The email pattern

  predicate NoAt(s: string) {
    forall m :: 0 <= m < |s| ==> s[m] != '@'
  }

  /** `e[..k]` splits as the pattern needs, with the '@' at i and the '.' at j. */
  ghost predicate SplitsAt(e: string, i: int, j: int, k: int) {
    0 < i && i + 1 < j && j + 1 < k <= |e|
    && e[i] == '@' && e[j] == '.'
    && NoAt(e[..i]) && NoAt(e[i + 1..j]) && NoAt(e[j + 1..k])
  }

  /** What `re.match(r'[^@]+@[^@]+\.[^@]+', e)` accepts: some prefix of `e`
      is a non-empty run without '@', an '@', a non-empty run without '@', a
      '.', and a non-empty run without '@'. `re.match` anchors at the start
      only, so whatever follows that prefix is ignored. */
  ghost predicate MatchesEmailPattern(e: string)
    ensures MatchesEmailPattern(e) ==> |e| >= 5 && '@' in e && '.' in e
  {
    exists i, j, k :: SplitsAt(e, i, j, k)
  }

  /** The position of the first `c` in `s`, or `|s|` when there is none. */
  function FirstIndex(s: string, c: char): (i: nat)
    ensures i <= |s|
    ensures forall j :: 0 <= j < i ==> s[j] != c
    ensures i < |s| ==> s[i] == c
    decreases |s|
  {
    if s == [] then 0 else if s[0] == c then 0 else 1 + FirstIndex(s[1..], c)
  }

  /** The segment after the first '@', up to the next '@' or the end. */
  function DomainSegment(e: string): string
    requires FirstIndex(e, '@') < |e|
  {
    var rest := e[FirstIndex(e, '@') + 1..];
    rest[..FirstIndex(rest, '@')]
  }

  /** A direct check: a non-empty part before the first '@', and a '.' with
      at least one character on each side inside the '@'-free segment after it. */
  function EmailPatternOk(e: string): bool {
    var i := FirstIndex(e, '@');
    0 < i < |e| && var seg := DomainSegment(e); |seg| >= 3 && '.' in seg[1..|seg| - 1]
  }

  lemma EmailPatternSound(e: string)
    requires EmailPatternOk(e)
    ensures MatchesEmailPattern(e)
  {
    var i := FirstIndex(e, '@');
    var rest := e[i + 1..];
    var n := FirstIndex(rest, '@');
    var seg := rest[..n];
    var m :| 0 <= m < |seg| - 2 && seg[1..|seg| - 1][m] == '.';
    var p := m + 1;
    var j, k := i + 1 + p, i + 1 + p + 2;
    assert e[j] == seg[p] == '.';
    assert forall q :: i + 1 <= q < k ==> e[q] == rest[q - i - 1] && q - i - 1 < n;
    assert SplitsAt(e, i, j, k);
  }

  /** With the '@' at i and nothing but non-'@' before it, i is the first '@'. */
  lemma FirstAtIs(e: string, i: nat)
    requires i < |e| && e[i] == '@' && NoAt(e[..i])
    ensures FirstIndex(e, '@') == i
  {
    assert forall q :: 0 <= q < i ==> e[..i][q] == e[q];
  }

  /** A run without '@' from `a` to `b` in `rest` puts the first '@' at or after `b`. */
  lemma FirstAtAfter(rest: string, b: nat)
    requires b <= |rest| && NoAt(rest[..b])
    ensures FirstIndex(rest, '@') >= b
  {
    assert forall q :: 0 <= q < b ==> rest[..b][q] == rest[q];
  }

  lemma EmailPatternComplete(e: string)
    requires MatchesEmailPattern(e)
    ensures EmailPatternOk(e)
  {
    var i, j, k :| SplitsAt(e, i, j, k);
    FirstAtIs(e, i);
    var rest := e[i + 1..];
    var b := k - i - 1;
    assert forall q :: 0 <= q < b ==> rest[..b][q] == e[i + 1 + q];
    assert forall q :: 0 <= q < j - i - 1 ==> rest[q] == e[i + 1..j][q];
    assert forall q :: j - i <= q < b ==> rest[q] == e[j + 1..k][q - (j - i)];
    FirstAtAfter(rest, b);
    var seg := rest[..FirstIndex(rest, '@')];
    assert seg[j - i - 1] == '.';
    assert seg[1..|seg| - 1][j - i - 2] == '.';
  }

  /** The direct check accepts exactly what the pattern matches. */
  lemma EmailPatternIff(e: string)
    ensures EmailPatternOk(e) <==> MatchesEmailPattern(e)
  {
    if EmailPatternOk(e) {
      EmailPatternSound(e);
    }
    if MatchesEmailPattern(e) {
      EmailPatternComplete(e);
    }
  }

  // The addresses the registration tests reject, one lemma each.

  /** Nothing after the '.': the last run of the pattern is empty. */
  lemma RejectsEmptyTopLevel(e: string)
    requires e == "brooth@gmail."
    ensures !MatchesEmailPattern(e)
  {
    assert NoAt(e[..6]);
    FirstAtIs(e, 6);
    var rest := e[7..];
    assert NoAt(rest[..6]);
    FirstAtAfter(rest, 6);
    assert rest[..6] == rest;
    assert '.' !in rest[1..5];
    EmailPatternIff(e);
  }

  /** Nothing before the '@'. */
  lemma RejectsEmptyLocalPart(e: string)
    requires e == "@gmail.com"
    ensures !MatchesEmailPattern(e)
  {
    assert e[0] == '@';
    EmailPatternIff(e);
  }

  /** No '@' at all. */
  lemma RejectsMissingAt(e: string)
    requires e == "brooth.gmail.com"
    ensures !MatchesEmailPattern(e)
  {
    assert NoAt(e[..|e|]);
    FirstAtAfter(e, |e|);
    EmailPatternIff(e);
  }

  /** The '.' before the '@' does not count: none follows it. */
  lemma RejectsDotOnlyBeforeAt(e: string)
    requires e == "brooth.gmail@com"
    ensures !MatchesEmailPattern(e)
  {
    assert NoAt(e[..12]);
    FirstAtIs(e, 12);
    var rest := e[13..];
    assert NoAt(rest[..3]);
    FirstAtAfter(rest, 3);
    assert rest[..3] == rest;
    assert '.' !in rest[1..2];
    EmailPatternIff(e);
  }

  /** The tests' accepted addresses, and one whose trailing '@' lies after the match. */
  lemma AcceptedEmails()
    ensures MatchesEmailPattern("brooth@gmail.com")
    ensures MatchesEmailPattern("b@gmail.co")
    ensures MatchesEmailPattern("a@b.c@")
  {
    assert SplitsAt("brooth@gmail.com", 6, 12, 14);
    assert SplitsAt("b@gmail.co", 1, 7, 9);
    var e := "a@b.c@";
    assert e[4..5] == "c";
    assert SplitsAt(e, 1, 3, 5);
  }

  // ---------------------------------------------------------------------
  // Registration

  /** `data.get('password', '')`. */
  function PasswordOf(d: map<string, string>): (p: string)
    ensures "password" in d ==> p == d["password"]
    ensures "password" !in d ==> p == ""
  {
    if "password" in d then d["password"] else ""
  }

  /** `data.get('name')`: None when the key is absent. */
  function NameOf(d: map<string, string>): (n: Option<string>)
    ensures n.None? <==> "name" !in d
    ensures n.Some? ==> n.value == d["name"]
  {
    if "name" in d then Some(d["name"]) else None
  }

  /** `find_one({'email': e})` finds a document: the scan over the table
      meets a user with that address. */
  predicate EmailTaken(users: seq<User>, e: string)
    ensures EmailTaken(users, e) <==> exists i :: 0 <= i < |users| && users[i].email == e
    decreases |users|
  {
    if users == [] then false
    else
      assert forall i :: 1 <= i < |users| ==> users[i] == users[1..][i - 1];
      users[0].email == e || EmailTaken(users[1..], e)
  }

  /** What is inserted when every guard passes, before the password is digested. */
  datatype NewUser = NewUser(email: string, name: Option<string>, password: string)

  /** The guard chain of POST /users, in its order. `data` is the parsed
      body, None when there is none. */
  function Validate(data: Option<map<string, string>>, users: seq<User>): (r: Result<NewUser, UserError>)
    // A missing body or a body without "email" fails before anything else.
    ensures r == Err(MissingEmail) <==> data.None? || "email" !in data.value
    ensures data.Some? && "email" in data.value ==>
      var d := data.value;
      var e := d["email"];
      var name := NameOf(d);
      // Then the pattern, then the length (only once the pattern matched) ...
      && (r == Err(InvalidEmail(e)) <==> !MatchesEmailPattern(e))
      && (r == Err(TooLongEmail) <==> MatchesEmailPattern(e) && |e| > MaxEmailLength)
      // ... then an existing email, before the password or the name is looked at ...
      && (r == Err(EmailExists(e)) <==>
            MatchesEmailPattern(e) && |e| <= MaxEmailLength && EmailTaken(users, e))
      && (r == Err(TooLongPassword) <==>
            MatchesEmailPattern(e) && |e| <= MaxEmailLength && !EmailTaken(users, e)
            && |PasswordOf(d)| > MaxPasswordLength)
      // ... and the name only when there is a non-empty one.
      && (r == Err(TooLongName) <==>
            MatchesEmailPattern(e) && |e| <= MaxEmailLength && !EmailTaken(users, e)
            && |PasswordOf(d)| <= MaxPasswordLength && name.Some? && |name.value| > MaxNameLength)
      && (r.Ok? <==>
            MatchesEmailPattern(e) && |e| <= MaxEmailLength && !EmailTaken(users, e)
            && |PasswordOf(d)| <= MaxPasswordLength && !(name.Some? && |name.value| > MaxNameLength))
      && (r.Ok? ==> r.value == NewUser(e, name, PasswordOf(d)))
  {
    if data.None? || "email" !in data.value then Err(MissingEmail)
    else
      var d := data.value;
      var email := d["email"];
      EmailPatternIff(email);
      if !EmailPatternOk(email) then Err(InvalidEmail(email))
      else if |email| > MaxEmailLength then Err(TooLongEmail)
      else if EmailTaken(users, email) then Err(EmailExists(email))
      else
        var password := PasswordOf(d);
        if |password| > MaxPasswordLength then Err(TooLongPassword)
        else
          var name := NameOf(d);
          if name.Some? && name.value != "" && |name.value| > MaxNameLength then Err(TooLongName)
          else Ok(NewUser(email, name, password))
  }

  datatype Registered = Registered(users: seq<User>, result: Result<Id, UserError>)

  /** The effect of POST /users: the table after the call and the response.
      `newId` is the id the database assigns; `digest` is `password_hash`. */
  function Register(users: seq<User>, data: Option<map<string, string>>, newId: Id,
                    digest: string -> string): (out: Registered)
    // Any failure leaves the table as it was and reports the guard's error.
    ensures Validate(data, users).Err? ==>
      out.users == users && out.result == Err(Validate(data, users).error)
    // Success appends exactly one user, holding the digest and not the password.
    ensures Validate(data, users).Ok? ==>
      var n := Validate(data, users).value;
      out.result == Ok(newId) && out.users == users + [User(newId, n.email, n.name, digest(n.password))]
  {
    match Validate(data, users)
    case Err(e) => Registered(users, Err(e))
    case Ok(n) => Registered(users + [User(newId, n.email, n.name, digest(n.password))], Ok(newId))
  }

  /** No two users share an email. */
  ghost predicate EmailsUnique(users: seq<User>) {
    forall i, j :: 0 <= i < j < |users| ==> users[i].email != users[j].email
  }

  /** Every stored user passed the guards. */
  ghost predicate AllAdmissible(users: seq<User>) {
    forall i :: 0 <= i < |users| ==>
      MatchesEmailPattern(users[i].email) && |users[i].email| <= MaxEmailLength
      && (users[i].name.Some? ==> |users[i].name.value| <= MaxNameLength)
  }

  /** Registration never stores a second user with the same email. */
  lemma RegisterKeepsEmailsUnique(users: seq<User>, data: Option<map<string, string>>, newId: Id,
                                  digest: string -> string)
    requires EmailsUnique(users)
    ensures EmailsUnique(Register(users, data, newId, digest).users)
  {
    var out := Register(users, data, newId, digest);
    if Validate(data, users).Ok? {
      var e := Validate(data, users).value.email;
      assert !EmailTaken(users, e);
      assert out.users[|users|].email == e;
    }
  }

  /** Registration stores only users that pass every guard. */
  lemma RegisterKeepsAdmissible(users: seq<User>, data: Option<map<string, string>>, newId: Id,
                                digest: string -> string)
    requires AllAdmissible(users)
    ensures AllAdmissible(Register(users, data, newId, digest).users)
  {
  }

  /** A second registration with an email already stored fails with code
      100 and leaves the table alone, whatever else the body holds. */
  lemma RegisterSameEmailTwice(users: seq<User>, data: Option<map<string, string>>, newId: Id,
                               again: Option<map<string, string>>, otherId: Id, digest: string -> string)
    requires Register(users, data, newId, digest).result.Ok?
    requires again.Some? && "email" in again.value && "email" in data.value
    requires again.value["email"] == data.value["email"]
    ensures var first := Register(users, data, newId, digest);
      var e := data.value["email"];
      var second := Register(first.users, again, otherId, digest);
      second.users == first.users && second.result == Err(EmailExists(e))
      && Code(second.result.error) == Some(100)
  {
    var first := Register(users, data, newId, digest);
    assert first.users[|users|].email == data.value["email"];
  }

  /** The test's 134-character address: the pattern matches, the length does not. */
  lemma TooLongEmailExample(e: string, users: seq<User>)
    requires e == "br" + seq(120, _ => 'o') + "th@gmail.com"
    ensures Validate(Some(map["email" := e]), users) == Err(TooLongEmail)
  {
    assert |e| == 134;
    assert forall q :: 0 <= q < 124 ==> e[..124][q] != '@';
    assert e[124] == '@' && e[130] == '.';
    assert e[125..130] == "gmail" && e[131..132] == "c";
    assert SplitsAt(e, 124, 130, 132);
  }

  /** A 21-character password is one too many. */
  lemma TooLongPasswordExample(e: string, password: string, users: seq<User>)
    requires e == "b@gmail.co" && password == seq(21, _ => 'p')
    requires !EmailTaken(users, e)
    ensures Validate(Some(map["email" := e, "password" := password]), users) == Err(TooLongPassword)
  {
    assert e[2..7] == "gmail" && e[8..9] == "c";
    assert SplitsAt(e, 1, 7, 9);
  }

  /** A 121-character name is one too many. */
  lemma TooLongNameExample(e: string, name: string, users: seq<User>)
    requires e == "brooth@gmail.com" && name == seq(121, _ => 'n')
    requires !EmailTaken(users, e)
    ensures Validate(Some(map["email" := e, "name" := name]), users) == Err(TooLongName)
  {
    assert e[..6] == "brooth" && e[7..12] == "gmail" && e[13..14] == "c";
    assert SplitsAt(e, 6, 12, 14);
    var d := map["email" := e, "name" := name];
    assert PasswordOf(d) == "" && NameOf(d) == Some(name);
  }

  /** The `users` collection. */
  class UserTable {
    var users: seq<User>

    constructor ()
      ensures users == []
    {
      users := [];
    }

    /** POST /users. */
    method Post(data: Option<map<string, string>>, newId: Id, digest: string -> string)
      returns (result: Result<Id, UserError>)
      modifies this
      ensures users == Register(old(users), data, newId, digest).users
      ensures result == Register(old(users), data, newId, digest).result
    {
      var checked := Validate(data, users);
      if checked.Err? {
        return Err(checked.error);
      }
      var n := checked.value;
      users := users + [User(newId, n.email, n.name, digest(n.password))];
      result := Ok(newId);
    }
  }

  /** GET /users for the user the token resolved to: `find_one({'_id': id},
      {'_id': 0, 'name': 1})` gives the first user with that id, projected to
      its `name` alone; no such user is 'User not found'. */
  function GetName(users: seq<User>, userId: Id): (r: Result<Option<string>, UserError>)
    ensures r.Err? ==> r.error == UserNotFound
    ensures r == Err(UserNotFound) <==> forall i :: 0 <= i < |users| ==> users[i].id != userId
    ensures r.Ok? ==> exists i :: (0 <= i < |users| && users[i].id == userId && r.value == users[i].name
                                   && forall j :: 0 <= j < i ==> users[j].id != userId)
    decreases |users|
  {
    if users == [] then Err(UserNotFound)
    else if users[0].id == userId then Ok(users[0].name)
    else
      var r := GetName(users[1..], userId);
      assert forall i :: 1 <= i < |users| ==> users[i] == users[1..][i - 1];
      r
  }
}
