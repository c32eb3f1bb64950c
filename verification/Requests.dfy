/** Whole requests, from their bytes to the file and the accounts they lead to. */
module Requests {
  import opened CStrings
  import opened HttpConn
  import opened MessageSpec
  import opened Numbers
  import opened ResponseSpec
  import opened Routing
  import opened Wrappers

  /** The text of a request without a body. */
  function GetText(url: string): string {
    "GET " + url + " HTTP/1.1" + "\r\n" + "\r\n"
  }

  /** The text of a posted body. */
  function PostText(url: string, body: string): string {
    "POST " + url + " HTTP/1.1" + "\r\n" + "Content-Length:" + Decimal(|body|) + "\r\n" + "\r\n" + body
  }

  lemma LineOf(word: string, url: string)
    requires Clean(word) && NoBlank(url)
    ensures Clean(word + " " + url + " HTTP/1.1") && ' ' !in url
  {
    assert Clean(" HTTP/1.1") && Clean(" ");
  }

  lemma WordsClean()
    ensures Clean("GET") && Clean("POST") && ' ' !in "GET" && ' ' !in "POST"
    ensures EqNoCase("GET", "GET") && EqNoCase("POST", "POST")
  {
  }

  /** A GET is read as what it says, whatever follows it, if the server believes it has at least all of
      it. The root is the start page. */
  lemma GetFromBytes(url: string, tail: string, limit: int, errno: int)
    requires NoBlank(url) && url != "" && url[0] == '/'
    requires |GetText(url)| <= limit <= |GetText(url) + tail|
    ensures ReadMessage(GetText(url) + tail, limit, errno) ==
            Accepted(Request(GET, if url == "/" then "/judge.html" else url, Headers(true, 0, errno, map[]), None))
  {
    hide ReadRequestLine, ReadMessage, FoldHeaders, Clean, NoBlank, EqNoCase, PathOf;
    var first := "GET" + " " + url + " HTTP/1.1";
    WordsClean();
    LineOf("GET", url);
    PathOfPath(url);
    ReadsVerb("GET", url, url);
    assert FoldHeaders(FreshHeaders(errno), []) == Some(FreshHeaders(errno)) by { FoldNone(FreshHeaders(errno)); }
    assert "GET " + url + " HTTP/1.1" == first;
    assert HeadText(first, []) == GetText(url);
    assert LinesFit([first] + [], limit);
    MessageComplete(first, [], tail, limit, errno);
  }

  lemma FoldNone(h: Headers)
    ensures FoldHeaders(h, []) == Some(h) && Lines([]) == ""
  {
  }

  /** A POST likewise, with exactly its body. */
  lemma PostFromBytes(url: string, body: string, tail: string, limit: int, errno: int)
    requires NoBlank(url) && url != "" && url[0] == '/' && url != "/"
    requires 0 < |body| <= INT_MAX && errno != EINVAL
    requires |PostText(url, body)| <= limit <= |PostText(url, body) + tail|
    ensures ReadMessage(PostText(url, body) + tail, limit, errno) ==
            Accepted(Request(POST, url, Headers(true, |body|, errno, map[]), Some(body)))
  {
    hide ReadRequestLine, ReadMessage, FoldHeaders, ReadHeader, Clean, NoBlank, EqNoCase, PathOf, Decimal;
    var first, line, h := "POST" + " " + url + " HTTP/1.1", LengthLine(|body|), FreshHeaders(errno);
    WordsClean();
    LineOf("POST", url);
    PathOfPath(url);
    ReadsVerb("POST", url, url);
    ReadsLength(h, |body|);
    OneLine(line, h);
    assert "POST " + url + " HTTP/1.1" == first;
    assert HeadText(first, [line]) + (body + tail) == PostText(url, body) + tail;
    assert |HeadText(first, [line])| + |body| == |PostText(url, body)|;
    assert [first] + [line] == [first, line];
    MessageComplete(first, [line], body + tail, limit, errno);
    assert (body + tail)[..|body|] == body;
  }

  /** The request PostFromBytes reads. */
  function Posted(url: string, body: string, errno: int): Request {
    Request(POST, url, Headers(true, |body|, errno, map[]), Some(body))
  }

  lemma WholeBody(url: string, body: string, errno: int)
    requires NUL !in body
    ensures BodyText(Posted(url, body, errno)) == body
  {
    WholeCStr(body);
    hide CStr;
  }

  lemma FormClean(name: string, password: string)
    requires NUL !in name && NUL !in password
    ensures NUL !in "user=" + name + "&password=" + password
  {
    assert NUL !in "user=" && NUL !in "&password=";
  }

  /** A login from its bytes. After any run of requests to a server without accounts, the posted form leads
      to the file of the welcome page if and only if its password is that of the first registration
      posted for the name, and otherwise to that of the error page; and no account changes. */
  lemma LoginFromBytes(visits: seq<Visit>, root: string, dir: string, part: string, name: string, password: string, stored: bool,
                       tail: string, limit: int, errno: int)
    requires AllWellFormed(visits) && |root| <= 180
    requires NoBlank(dir + "/" + part) && (dir == "" || dir[0] == '/') && '/' !in part && part != "" && part[0] == '2'
    requires '&' !in name && NUL !in name && NUL !in password && |name| < 100 && |password| < 100 && errno != EINVAL
    requires PathsFit(root, dir + "/" + part, Login(name, password))
    requires var bytes := PostText(dir + "/" + part, "user=" + name + "&password=" + password); |bytes| <= limit <= |bytes + tail|
    ensures var body := "user=" + name + "&password=" + password;
            var outcome := ReadMessage(PostText(dir + "/" + part, body) + tail, limit, errno);
            var users := RunVisits(map[], visits);
            && outcome.Accepted? && Answerable(outcome, root, stored)
            && PathOfRequest(outcome.request, root, users, stored) ==
               root + (if FirstPassword(AccountsOf(visits), name) == Some(password) then "/welcome.html" else "/logError.html")
            && AccountsAfter(outcome, root, users, stored) == users
  {
    hide ReadMessage, NoBlank, PostText, RunVisits, AccountsOf, FormFits, FormAccount, PathsFit, Page, UsersAfter, BodyText, IsForm;
    var url, body := dir + "/" + part, "user=" + name + "&password=" + password;
    assert url[0] == '/' && |url| > 1;
    FormClean(name, password);
    WholeBody(url, body, errno);
    PostFromBytes(url, body, tail, limit, errno);
    FormByFlag(dir, part, name, password, stored);
    LoginRequest(visits, dir, part, name, password, stored);
  }

  /** A registration from its bytes: it leads to the login page if and only if no registration was posted
      for the name before and the database takes it, and otherwise to the error page; and a new name has
      the posted password from then on. */
  lemma RegisterFromBytes(visits: seq<Visit>, root: string, dir: string, part: string, name: string, password: string, stored: bool,
                          tail: string, limit: int, errno: int)
    requires AllWellFormed(visits) && |root| <= 180
    requires NoBlank(dir + "/" + part) && (dir == "" || dir[0] == '/') && '/' !in part && part != "" && part[0] == '3'
    requires '&' !in name && NUL !in name && NUL !in password && |name| < 100 && |password| < 100 && errno != EINVAL
    requires PathsFit(root, dir + "/" + part, Register(name, password, stored))
    requires var bytes := PostText(dir + "/" + part, "user=" + name + "&password=" + password); |bytes| <= limit <= |bytes + tail|
    ensures var body := "user=" + name + "&password=" + password;
            var outcome := ReadMessage(PostText(dir + "/" + part, body) + tail, limit, errno);
            var users, isNew := RunVisits(map[], visits), FirstPassword(AccountsOf(visits), name).None?;
            && outcome.Accepted? && Answerable(outcome, root, stored)
            && PathOfRequest(outcome.request, root, users, stored) ==
               root + (if isNew && stored then "/log.html" else "/registerError.html")
            && AccountsAfter(outcome, root, users, stored) == if isNew then users[name := password] else users
  {
    hide ReadMessage, NoBlank, PostText, RunVisits, AccountsOf, FormFits, FormAccount, PathsFit, Page, UsersAfter, BodyText, IsForm;
    var url, body := dir + "/" + part, "user=" + name + "&password=" + password;
    assert url[0] == '/' && |url| > 1;
    FormClean(name, password);
    WholeBody(url, body, errno);
    PostFromBytes(url, body, tail, limit, errno);
    FormByFlag(dir, part, name, password, stored);
    RegisterRequest(visits, dir, part, name, password, stored);
  }

  /** A page from its bytes: the file of the url under the root, or of the fixed page its last part begins
      with, or of the start page; no account changes. */
  lemma PageFromBytes(users: map<string, string>, root: string, dir: string, part: string, stored: bool,
                      tail: string, limit: int, errno: int)
    requires |root| <= 180 && |root| + |dir| + |part| < 199
    requires NoBlank(dir + "/" + part) && (dir == "" || dir[0] == '/') && '/' !in part
    requires |GetText(dir + "/" + part)| <= limit <= |GetText(dir + "/" + part) + tail|
    ensures var outcome := ReadMessage(GetText(dir + "/" + part) + tail, limit, errno);
            && outcome.Accepted? && Answerable(outcome, root, stored)
            && PathOfRequest(outcome.request, root, users, stored) ==
               root + (if dir == "" && part == "" then "/judge.html"
                       else if part == "" then dir + "/"
                       else if part[0] == '0' then "/register.html"
                       else if part[0] == '1' then "/log.html"
                       else if part[0] == '5' then "/picture.html"
                       else if part[0] == '6' then "/video.html"
                       else if part[0] == '7' then "/fans.html"
                       else dir + "/" + part)
            && AccountsAfter(outcome, root, users, stored) == users
  {
    hide ReadMessage, NoBlank, GetText, FormFits, PathsFit, Page, UsersAfter, IsForm;
    var url := dir + "/" + part;
    assert url[0] == '/' && |url| == |dir| + 1 + |part|;
    GetFromBytes(url, tail, limit, errno);
    var body := BodyText(ReadMessage(GetText(url) + tail, limit, errno).request);
    if url == "/" {
      StartPage(body, users, stored);
    } else {
      PageByFlag(GET, dir, part, body, users, stored);
      assert part == "" ==> url == dir + "/";
    }
  }

  lemma StartPage(body: string, users: map<string, string>, stored: bool)
    ensures '/' in "/judge.html" && !IsForm(GET, "/judge.html")
    ensures Page(GET, "/judge.html", body, users, stored) == "/judge.html"
    ensures UsersAfter(GET, "/judge.html", body, users, stored) == users
  {
    hide Page, UsersAfter, IsForm;
    assert "" + "/" + "judge.html" == "/judge.html" && '/' !in "judge.html" && "judge.html"[0] == 'j';
    PageByFlag(GET, "", "judge.html", body, users, stored);
  }
}
