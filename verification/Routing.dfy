/** What do_request_ decides, as pure functions: the account forms, the page that answers a
    request, and the file system's verdict on it. */
module Routing {
  import opened CStrings
  import opened MessageSpec
  import opened Wrappers

  // ---------------------------------------------------------------- forms

  /** user=N&password=P */
  function FormText(name: string, password: string): string {
    "user=" + name + "&password=" + password
  }

  function NameLength(content: string): nat
    requires 5 <= |content|
  {
    FirstOf(content[5..], "&")
  }

  /** The form has an '&' and enough behind it, and both values fit their 100-byte buffers. The
      source checks none of this. */
  predicate FormFits(content: string) {
    && 5 <= |content|
    && 5 + NameLength(content) + 10 <= |content|
    && NameLength(content) < 100
    && |content| - (15 + NameLength(content)) < 100
  }

  function FormName(content: string): string
    requires FormFits(content)
  {
    content[5..][..NameLength(content)]
  }

  function FormPassword(content: string): string
    requires FormFits(content)
  {
    content[5 + NameLength(content) + 10..]
  }

  /** A posted form decodes back to the pair it was made of. */
  lemma FormRoundTrip(name: string, password: string)
    requires '&' !in name && |name| < 100 && |password| < 100
    ensures var content := FormText(name, password);
            FormFits(content) && FormName(content) == name && FormPassword(content) == password
  {
    hide FirstOf;
    var content := FormText(name, password);
    assert |"&password="| == 10;
    var tail := name + "&password=" + password;
    assert content == "user=" + tail;
    assert content[5..] == tail;
    assert tail[|name|] == "&password="[0];
    FirstOfIs(tail, "&", |name|);
    assert tail[..|name|] == name;
    assert content[5 + |name| + 10..] == password;
  }

  // ---------------------------------------------------------------- accounts

  const WELCOME := "/welcome.html"
  const LOGIN_ERROR := "/logError.html"
  const LOGIN := "/log.html"
  const REGISTER_ERROR := "/registerError.html"

  /** A registration or a login; `stored` says whether the database took the registration. */
  datatype Account = Register(name: string, password: string, stored: bool) | Login(name: string, password: string)

  function AccountPage(users: map<string, string>, a: Account): string {
    match a
    case Register(name, _, stored) => if name !in users && stored then LOGIN else REGISTER_ERROR
    case Login(name, password) => if name in users && users[name] == password then WELCOME else LOGIN_ERROR
  }

  function AccountUsers(users: map<string, string>, a: Account): map<string, string> {
    if a.Register? && a.name !in users then users[a.name := a.password] else users
  }

  function RunAccounts(users: map<string, string>, run: seq<Account>): map<string, string>
    decreases |run|
  {
    if run == [] then users else RunAccounts(AccountUsers(users, run[0]), run[1..])
  }

  /** The password of the earliest registration of a name in a run. */
  function FirstPassword(run: seq<Account>, name: string): Option<string> {
    if run == [] then None
    else if run[0].Register? && run[0].name == name then Some(run[0].password)
    else FirstPassword(run[1..], name)
  }

  function Stored(users: map<string, string>, name: string): Option<string> {
    if name in users then Some(users[name]) else None
  }

  /** Whatever happens later, a name keeps the password of its first registration. */
  lemma {:induction false} FirstRegistrationFixes(users: map<string, string>, run: seq<Account>, name: string)
    ensures Stored(RunAccounts(users, run), name) ==
            if name in users then Some(users[name]) else FirstPassword(run, name)
    decreases |run|
  {
    if run != [] {
      FirstRegistrationFixes(AccountUsers(users, run[0]), run[1..], name);
    }
  }

  /** After any run from an empty table, a login is answered with the welcome page for the first
      registered password, and otherwise with the error page. */
  lemma LoginAnswers(run: seq<Account>, name: string, password: string)
    ensures AccountPage(RunAccounts(map[], run), Login(name, password)) ==
            if FirstPassword(run, name) == Some(password) then "/welcome.html" else "/logError.html"
  {
    FirstRegistrationFixes(map[], run, name);
  }

  /** A registration is answered with the login page if the name was never registered before and the
      database takes it, and otherwise with the error page. */
  lemma RegisterAnswers(run: seq<Account>, name: string, password: string, stored: bool)
    ensures AccountPage(RunAccounts(map[], run), Register(name, password, stored)) ==
            if FirstPassword(run, name).None? && stored then "/log.html" else "/registerError.html"
  {
    FirstRegistrationFixes(map[], run, name);
  }

  // ---------------------------------------------------------------- pages

  function LastSlash(url: string): (k: nat)
    requires '/' in url
    ensures k < |url| && url[k] == '/' && forall j :: k < j < |url| ==> url[j] != '/'
  {
    if url[|url| - 1] == '/' then |url| - 1 else
      assert url == url[..|url| - 1] + [url[|url| - 1]];
      LastSlash(url[..|url| - 1])
  }

  /** The character behind the last slash. */
  function Flag(url: string): char
    requires '/' in url
  {
    if LastSlash(url) + 1 < |url| then url[LastSlash(url) + 1] else NUL
  }

  /** The fixed pages, by flag. */
  function FixedPage(flag: char): Option<string> {
    if flag == '0' then Some("/register.html")
    else if flag == '1' then Some("/log.html")
    else if flag == '5' then Some("/picture.html")
    else if flag == '6' then Some("/video.html")
    else if flag == '7' then Some("/fans.html")
    else None
  }

  predicate IsForm(verb: Method, url: string)
    requires '/' in url
  {
    verb == POST && (Flag(url) == '2' || Flag(url) == '3')
  }

  function FormAccount(url: string, content: string, stored: bool): Account
    requires '/' in url && FormFits(content)
  {
    if Flag(url) == '3' then Register(FormName(content), FormPassword(content), stored)
    else Login(FormName(content), FormPassword(content))
  }

  /** The page that answers a request. */
  function Page(verb: Method, url: string, content: string, users: map<string, string>, stored: bool): string
    requires '/' in url
    requires IsForm(verb, url) ==> FormFits(content)
  {
    if IsForm(verb, url) then AccountPage(users, FormAccount(url, content, stored))
    else if FixedPage(Flag(url)).Some? then FixedPage(Flag(url)).value
    else url
  }

  function UsersAfter(verb: Method, url: string, content: string, users: map<string, string>, stored: bool): map<string, string>
    requires '/' in url
    requires IsForm(verb, url) ==> FormFits(content)
  {
    if IsForm(verb, url) then AccountUsers(users, FormAccount(url, content, stored)) else users
  }

  /** The cases of the two definitions, for proofs that hide LastSlash. */
  lemma PageCases(verb: Method, url: string, content: string, users: map<string, string>, stored: bool)
    requires '/' in url && (IsForm(verb, url) ==> FormFits(content))
    ensures IsForm(verb, url) ==>
              && Page(verb, url, content, users, stored) == AccountPage(users, FormAccount(url, content, stored))
              && UsersAfter(verb, url, content, users, stored) == AccountUsers(users, FormAccount(url, content, stored))
    ensures !IsForm(verb, url) ==>
              && Page(verb, url, content, users, stored) ==
                 (if FixedPage(Flag(url)).Some? then FixedPage(Flag(url)).value else url)
              && UsersAfter(verb, url, content, users, stored) == users
  {
    hide LastSlash;
  }

  /** A request as the accounts see it. */
  datatype Visit = Visit(verb: Method, url: string, content: string, stored: bool)

  predicate WellFormed(v: Visit) {
    '/' in v.url && (IsForm(v.verb, v.url) ==> FormFits(v.content))
  }

  predicate AllWellFormed(visits: seq<Visit>) {
    forall i :: 0 <= i < |visits| ==> WellFormed(visits[i])
  }

  /** The registrations and logins among the requests. */
  function AccountsOf(visits: seq<Visit>): seq<Account>
    requires AllWellFormed(visits)
  {
    if visits == [] then [] else
      (if IsForm(visits[0].verb, visits[0].url)
       then [FormAccount(visits[0].url, visits[0].content, visits[0].stored)] else [])
      + AccountsOf(visits[1..])
  }

  /** The accounts after a run of requests. */
  function RunVisits(users: map<string, string>, visits: seq<Visit>): map<string, string>
    requires AllWellFormed(visits)
    decreases |visits|
  {
    if visits == [] then users else
      var v := visits[0];
      RunVisits(UsersAfter(v.verb, v.url, v.content, users, v.stored), visits[1..])
  }

  /** Only the forms among the requests change the accounts. */
  lemma {:induction false} VisitsAreAccounts(users: map<string, string>, visits: seq<Visit>)
    requires AllWellFormed(visits)
    ensures RunVisits(users, visits) == RunAccounts(users, AccountsOf(visits))
    decreases |visits|
  {
    hide IsForm, FormFits, LastSlash, AccountUsers, FormAccount;
    if visits != [] {
      var v := visits[0];
      VisitsAreAccounts(UsersAfter(v.verb, v.url, v.content, users, v.stored), visits[1..]);
      if IsForm(v.verb, v.url) {
        var a := FormAccount(v.url, v.content, v.stored);
        assert AccountsOf(visits) == [a] + AccountsOf(visits[1..]);
        assert AccountsOf(visits)[1..] == AccountsOf(visits[1..]);
      } else {
        assert AccountsOf(visits) == AccountsOf(visits[1..]);
      }
    }
  }

  /** The last slash of a url is where its last part begins, however deep the path. */
  lemma {:induction false} LastPart(dir: string, part: string)
    requires '/' !in part
    ensures var url := dir + "/" + part;
            '/' in url && LastSlash(url) == |dir| && Flag(url) == if part == "" then NUL else part[0]
  {
    hide LastSlash;
    var url := dir + "/" + part;
    assert url[|dir|] == '/';
    assert forall k :: |dir| < k < |url| ==> url[k] == part[k - |dir| - 1] && url[k] in part;
  }

  /** Which page answers a request that is no posted form, by the first character of the last part
      of its path. */
  lemma PageByFlag(verb: Method, dir: string, part: string, content: string, users: map<string, string>, stored: bool)
    requires '/' !in part && (verb != POST || part == "" || (part[0] != '2' && part[0] != '3'))
    ensures var url := dir + "/" + part;
            && '/' in url && !IsForm(verb, url)
            && UsersAfter(verb, url, content, users, stored) == users
            && Page(verb, url, content, users, stored) ==
               if part == "" then url
               else if part[0] == '0' then "/register.html"
               else if part[0] == '1' then "/log.html"
               else if part[0] == '5' then "/picture.html"
               else if part[0] == '6' then "/video.html"
               else if part[0] == '7' then "/fans.html"
               else url
  {
    hide LastSlash;
    LastPart(dir, part);
  }

  /** And which account action a posted form is. */
  lemma FormByFlag(dir: string, part: string, name: string, password: string, stored: bool)
    requires '/' !in part && part != "" && '&' !in name && |name| < 100 && |password| < 100
    ensures var url, content := dir + "/" + part, "user=" + name + "&password=" + password;
            && '/' in url && (IsForm(POST, url) <==> part[0] == '2' || part[0] == '3')
            && FormFits(content)
            && (part[0] == '2' ==> FormAccount(url, content, stored) == Login(name, password))
            && (part[0] == '3' ==> FormAccount(url, content, stored) == Register(name, password, stored))
  {
    hide LastSlash, FormFits, FormName, FormPassword;
    LastPart(dir, part);
    FormRoundTrip(name, password);
  }

  /** The whole story of a registration: it leads to the login page if and only if no registration form
      was posted for the name before and the database takes it. */
  lemma RegisterRequest(visits: seq<Visit>, dir: string, part: string, name: string, password: string, stored: bool)
    requires AllWellFormed(visits)
    requires '/' !in part && part != "" && part[0] == '3' && '&' !in name && |name| < 100 && |password| < 100
    ensures var url, content, users := dir + "/" + part, "user=" + name + "&password=" + password, RunVisits(map[], visits);
            && '/' in url && FormFits(content)
            && Page(POST, url, content, users, stored) ==
               (if FirstPassword(AccountsOf(visits), name).None? && stored then "/log.html" else "/registerError.html")
            && UsersAfter(POST, url, content, users, stored) ==
               (if FirstPassword(AccountsOf(visits), name).None? then users[name := password] else users)
  {
    hide LastSlash, RunVisits, AccountsOf, FormFits, FormName, FormPassword, AccountPage, Flag, FormAccount;
    FormByFlag(dir, part, name, password, stored);
    VisitsAreAccounts(map[], visits);
    RegisterAnswers(AccountsOf(visits), name, password, stored);
    FirstRegistrationFixes(map[], AccountsOf(visits), name);
  }

  /** The whole story of a login: after any run of requests to a server without accounts, posting the
      login form is answered with the welcome page if and only if the password is the one of the
      first registration form posted for that name, however deep the path posted to. */
  lemma LoginRequest(visits: seq<Visit>, dir: string, part: string, name: string, password: string, stored: bool)
    requires AllWellFormed(visits)
    requires '/' !in part && part != "" && part[0] == '2' && '&' !in name && |name| < 100 && |password| < 100
    ensures var url, content, users := dir + "/" + part, "user=" + name + "&password=" + password, RunVisits(map[], visits);
            && '/' in url && FormFits(content)
            && Page(POST, url, content, users, stored) ==
               (if FirstPassword(AccountsOf(visits), name) == Some(password) then "/welcome.html" else "/logError.html")
            && UsersAfter(POST, url, content, users, stored) == users
  {
    hide LastSlash, RunVisits, AccountsOf, FormFits, FormName, FormPassword, AccountPage, Flag, FormAccount;
    FormByFlag(dir, part, name, password, stored);
    VisitsAreAccounts(map[], visits);
    LoginAnswers(AccountsOf(visits), name, password);
  }

  /** An answer page is short, and has no digit a fixed page goes by, at any position; nor have
      the flags of forms one, or the end of a string. */
  lemma PageText(users: map<string, string>, a: Account)
    ensures var page := AccountPage(users, a);
            |page| < 20 && NUL !in page && forall i :: 0 <= i < |page| ==> FixedPage(page[i]).None?
    ensures FixedPage(NUL).None? && FixedPage('2').None? && FixedPage('3').None?
  {
  }

  // ---------------------------------------------------------------- files

  const FILENAME_LEN := 200

  /** What stat, open, mmap and close say about a path, and the bytes of the file. */
  datatype FileStat = FileStat(readable: bool, directory: bool, opens: bool, maps: bool, closes: bool, content: string)
  {
    /** Nothing is in the way of sending it. */
    predicate Delivered() {
      readable && !directory && opens && maps && closes
    }
  }

  /** The path in m_real_file: the page under the root, cut to the buffer. */
  function ServedPath(root: string, page: string): (path: string)
    requires |root| < FILENAME_LEN
    ensures |path| < FILENAME_LEN && (NUL !in root && NUL !in page ==> NUL !in path)
  {
    var n := FILENAME_LEN - |root| - 1;
    root + if |page| <= n then page else page[..n]
  }

  /** The path is under the root: root and page, up to 199 characters. */
  lemma ServedUnderRoot(root: string, page: string)
    requires |root| < 200
    ensures var path := ServedPath(root, page);
            root <= path <= root + page && |path| == if |root + page| < 200 then |root + page| else 199
  {
  }

  /** The two paths built from the posted url fit the 200-byte buffers they are built in, and a
      registration's SQL text fits its own. The source checks none of this. */
  predicate PathsFit(root: string, url: string, a: Account) {
    && |root| + |url| - 1 < FILENAME_LEN && |url| - 1 < 200
    && (a.Register? ==> |InsertText(a.name, a.password)| < 200)
  }

  function InsertText(name: string, password: string): string {
    "INSERT INTO user(username, passwd) VALUES(" + "'" + name + "', '" + password + "')"
  }
}
