/** The URL parser of 3rd_party/EdUrlParser.cpp: a chain of gotos that
    fills one field after another and stops where the input stops. */
module UrlParser {
  import opened Bytes
  import opened Walks

  /** What the public fields hold; a part that is missing shows as "". */
  datatype Fields = Fields(scheme: string, hostName: string, port: string, path: string, query: string, fragment: string)

  const EMPTY := Fields("", "", "", "", "", "")

  // The parser, label by label; `s` is the input from the current position on

  function FromParam(f: Fields, s: string): Fields
    requires s != ""
  {
    var t := s[1..];
    var n := Until(t, "#");
    if n == |t| then f.(query := t) else f.(query := t[..n], fragment := t[n + 1..])
  }

  function FromPath(f: Fields, s: string): Fields {
    var n := Until(s, "?");
    if n == |s| then f.(path := s) else FromParam(f.(path := s[..n]), s[n..])
  }

  function AfterPort(f: Fields, s: string): Fields {
    if s == "" then f else if s[0] == '?' then FromParam(f, s) else FromPath(f, s)
  }

  function FromPort(f: Fields, s: string): Fields
    requires s != ""
  {
    var t := s[1..];
    var n := Until(t, "/?");
    AfterPort(f.(port := t[..n]), t[n..])
  }

  function AfterHost(f: Fields, s: string): Fields {
    if s != "" && s[0] == ':' then FromPort(f, s) else AfterPort(f, s)
  }

  function FromHost(f: Fields, s: string): Fields {
    if s == "" || s[0] != '/' then f
    else
      var t := s[1..];
      var n := Until(t, ":/?");
      AfterHost(f.(hostName := t[..n]), t[n..])
  }

  function FromScheme(s: string): Fields {
    var n := Until(s, ":");
    if n == |s| then EMPTY
    else if |s| - n < 3 || s[n + 1] != '/' then EMPTY.(scheme := s[..n])
    else FromHost(EMPTY.(scheme := s[..n]), s[n + 2..])
  }

  function Parse(raw: string): Fields {
    var s := SkipSpaces(raw);
    if s != "" && s[0] == '/' then FromHost(EMPTY, s) else FromScheme(s)
  }

  class EdUrlParser {
    var mRawUrl: string
    var scheme: string
    var hostName: string
    var port: string
    var path: string
    var query: string
    var fragment: string

    ghost function Content(): Fields
      reads this
    {
      Fields(scheme, hostName, port, path, query, fragment)
    }

    constructor ()
      ensures Content() == EMPTY
    {
      mRawUrl, scheme, hostName, port, path, query, fragment := "", "", "", "", "", "", "";
    }

    static method ParseUrl(urlstr: string) returns (url: EdUrlParser)
      ensures fresh(url) && url.Content() == Parse(urlstr)
      ensures var f := Parse(urlstr);
              && url.scheme == f.scheme && url.hostName == f.hostName && url.port == f.port
              && url.path == f.path && url.query == f.query && url.fragment == f.fragment
    {
      url := new EdUrlParser();
      url.mRawUrl := urlstr;
      url.ParseRaw();
    }

    /** `str[pos]` of a C string. */
    function At(pos: nat): char
      requires pos <= |mRawUrl|
      reads this`mRawUrl
    {
      if pos < |mRawUrl| then mRawUrl[pos] else 0 as char
    }

    method ParseParam(start: nat)
      requires start < |mRawUrl| && mRawUrl[start] == '?'
      modifies this`query, this`fragment
      ensures Content() == FromParam(old(Content()), mRawUrl[start..])
    {
      hide Until;
      var paramPos := start + 1;
      ghost var t := mRawUrl[start..][1..];
      assert t == mRawUrl[paramPos..];
      var pos := WalkUntil(mRawUrl, paramPos, "#");
      assert mRawUrl[paramPos..pos] == t[..pos - paramPos];
      query := mRawUrl[paramPos..pos];
      if pos >= |mRawUrl| { return; }
      pos := pos + 1;
      assert mRawUrl[pos..] == t[pos - paramPos..];
      fragment := mRawUrl[pos..];
    }

    method ParsePath(start: nat)
      requires start <= |mRawUrl|
      modifies this`path, this`query, this`fragment
      ensures Content() == FromPath(old(Content()), mRawUrl[start..])
    {
      hide Until;
      ghost var s := mRawUrl[start..];
      var pos := WalkUntil(mRawUrl, start, "?");
      assert mRawUrl[start..pos] == s[..pos - start] && mRawUrl[pos..] == s[pos - start..];
      path := mRawUrl[start..pos];
      if pos >= |mRawUrl| { return; }
      ParseParam(pos);
    }

    method ParsePort(start: nat)
      requires start <= |mRawUrl|
      modifies this`port, this`path, this`query, this`fragment
      ensures Content() == if At(start) != ':' then old(Content()) else FromPort(old(Content()), mRawUrl[start..])
    {
      hide Until;
      if At(start) != ':' { return; }
      var portPos := start + 1;
      ghost var t := mRawUrl[start..][1..];
      assert t == mRawUrl[portPos..];
      var pos := WalkUntil(mRawUrl, portPos, "/?");
      assert mRawUrl[portPos..pos] == t[..pos - portPos] && mRawUrl[pos..] == t[pos - portPos..];
      port := mRawUrl[portPos..pos];
      if pos >= |mRawUrl| { return; }
      if At(pos) == '?' {
        ParseParam(pos);
      } else {
        ParsePath(pos);
      }
    }

    method ParseHost(start: nat)
      requires start <= |mRawUrl|
      modifies this`hostName, this`port, this`path, this`query, this`fragment
      ensures Content() == FromHost(old(Content()), mRawUrl[start..])
    {
      hide Until;
      if At(start) != '/' { return; }
      var hostPos := start + 1;
      ghost var t := mRawUrl[start..][1..];
      assert t == mRawUrl[hostPos..];
      var pos := WalkUntil(mRawUrl, hostPos, ":/?");
      assert mRawUrl[hostPos..pos] == t[..pos - hostPos] && mRawUrl[pos..] == t[pos - hostPos..];
      hostName := mRawUrl[hostPos..pos];
      if pos < |mRawUrl| {
        if At(pos) == ':' {
          ParsePort(pos);
        } else if At(pos) == '/' {
          ParsePath(pos);
        } else {
          ParseParam(pos);
        }
      } else {
        ParsePort(pos);
      }
    }

    method ParseRaw()
      modifies this`scheme, this`hostName, this`port, this`path, this`query, this`fragment
      requires Content() == EMPTY
      ensures Content() == Parse(mRawUrl)
    {
      hide SkipSpaces, Until, FromHost;
      var pos := WalkSpaces(mRawUrl);
      ghost var s := mRawUrl[pos..];
      if At(pos) == '/' {
        ParseHost(pos);
        return;
      }
      var schemePos := pos;
      pos := WalkUntil(mRawUrl, pos, ":");
      if pos >= |mRawUrl| { return; }
      scheme := mRawUrl[schemePos..pos];
      assert scheme == s[..pos - schemePos] && mRawUrl[pos + 1..] == s[pos - schemePos + 1..];
      if |mRawUrl| - pos < 3 { return; }
      pos := pos + 1;
      if At(pos) != '/' { return; }
      pos := pos + 1;
      assert mRawUrl[pos..] == s[pos - schemePos..];
      ParseHost(pos);
    }
  }

  // Round trip

  datatype Query = Query(text: string, fragment: Option<string>)

  /** Without a scheme a URL is what follows one of the two slashes. */
  datatype Url = Url(scheme: Option<string>, host: string, port: Option<string>, path: string, query: Option<Query>)

  function Text(prefix: string, part: Option<string>): string {
    match part
    case Some(text) => prefix + text
    case None => ""
  }

  function QueryText(query: Option<Query>): string {
    match query
    case Some(q) => "?" + (q.text + Text("#", q.fragment))
    case None => ""
  }

  function SchemeText(scheme: Option<string>): string {
    match scheme
    case Some(text) => text + ":/"
    case None => ""
  }

  /** From the slash before the host on. */
  function Rest(u: Url): string {
    "/" + (u.host + (Text(":", u.port) + (u.path + QueryText(u.query))))
  }

  function Assemble(u: Url): string {
    SchemeText(u.scheme) + Rest(u)
  }

  function TextOf(query: Option<Query>): string {
    match query
    case Some(q) => q.text
    case None => ""
  }

  function Flat(u: Url): Fields {
    Fields(Text("", u.scheme), u.host, Text("", u.port), u.path,
           TextOf(u.query),
           if u.query.Some? then Text("", u.query.value.fragment) else "")
  }

  predicate CleanScheme(scheme: string) {
    Free(scheme, ":") && (scheme != "" ==> scheme[0] != ' ' && scheme[0] != '/')
  }

  /** No part holds a character that ends it. */
  predicate Clean(f: Fields) {
    && CleanScheme(f.scheme)
    && Free(f.hostName, ":/?")
    && Free(f.port, "/?")
    && Free(f.path, "?") && (f.path != "" ==> f.path[0] == '/')
    && Free(f.query, "#")
  }

  lemma ParamRead(f: Fields, q: Query)
    requires Free(q.text, "#") && f.fragment == ""
    ensures FromParam(f, QueryText(Some(q))) == f.(query := q.text, fragment := Text("", q.fragment))
  {
    hide Until, Free;
    var tail := Text("#", q.fragment);
    UntilEnd(q.text, tail, "#");
    assert QueryText(Some(q))[1..] == q.text + tail;
    if q.fragment.Some? {
      Cut(q.text, "#", q.fragment.value);
    }
  }

  function WithQuery(f: Fields, query: Option<Query>): Fields {
    match query
    case Some(q) => f.(query := q.text, fragment := Text("", q.fragment))
    case None => f
  }

  predicate CleanTail(path: string, query: Option<Query>) {
    Free(path, "?") && (path != "" ==> path[0] == '/') && Free(TextOf(query), "#")
  }

  lemma PathRead(f: Fields, path: string, query: Option<Query>)
    requires CleanTail(path, query)
    requires f.query == f.fragment == ""
    ensures FromPath(f, path + QueryText(query)) == WithQuery(f.(path := path), query)
  {
    hide FromParam, Until, Free;
    UntilEnd(path, QueryText(query), "?");
    if query.Some? {
      ParamRead(f.(path := path), query.value);
    } else {
      assert path + "" == path;
    }
  }

  lemma PathFirst(f: Fields, path: string, query: Option<Query>)
    requires CleanTail(path, query) && path != "" && f.query == f.fragment == ""
    ensures var s := path + QueryText(query);
            s[0] == '/' && WithQuery(f.(path := path), query) == AfterPort(f, s)
  {
    hide FromParam, FromPath, Free, QueryText, WithQuery;
    PathRead(f, path, query);
    assert (path + QueryText(query))[0] == path[0];
  }

  lemma NoPath(f: Fields, query: Option<Query>)
    requires CleanTail("", query) && f.path == f.fragment == f.query == ""
    ensures var s := QueryText(query);
            (s != "" ==> s[0] == '?') && WithQuery(f.(path := ""), query) == AfterPort(f, s)
  {
    hide FromParam, FromPath, Free;
    if query.Some? {
      ParamRead(f, query.value);
    }
  }

  /** What can follow a port: nothing, a path or a query. */
  lemma TailRead(f: Fields, path: string, query: Option<Query>)
    requires CleanTail(path, query)
    requires f.path == f.query == f.fragment == ""
    ensures var s := path + QueryText(query);
            WithQuery(f.(path := path), query) == AfterPort(f, s)
    ensures var s := path + QueryText(query); s != "" ==> s[0] in "/?"
  {
    hide AfterPort, QueryText, WithQuery, CleanTail;
    if path != "" {
      PathFirst(f, path, query);
    } else {
      NoPath(f, query);
      assert path + QueryText(query) == QueryText(query);
    }
  }

  lemma PortRead(f: Fields, port: string, path: string, query: Option<Query>)
    requires Free(port, "/?")
    requires CleanTail(path, query)
    requires f.path == f.query == f.fragment == ""
    ensures FromPort(f, ":" + (port + (path + QueryText(query)))) == WithQuery(f.(port := port, path := path), query)
  {
    hide AfterPort, QueryText, WithQuery, Until, Free, CleanTail;
    var s := path + QueryText(query);
    TailRead(f.(port := port), path, query);
    UntilEnd(port, s, "/?");
    assert (":" + (port + s))[1..] == port + s;
  }

  /** What can follow a host. */
  lemma AfterHostRead(f: Fields, port: Option<string>, path: string, query: Option<Query>)
    requires Free(Text("", port), "/?") && CleanTail(path, query)
    requires f.port == f.path == f.query == f.fragment == ""
    ensures var s := Text(":", port) + (path + QueryText(query));
            AfterHost(f, s) == WithQuery(f.(port := Text("", port), path := path), query)
            && (s != "" ==> s[0] in ":/?")
  {
    hide FromPort, AfterPort, QueryText, WithQuery, Free, CleanTail;
    var s := path + QueryText(query);
    match port
    case Some(text) =>
      assert "" + text == text;
      PortRead(f, text, path, query);
      Cut(":", text, s);
    case None =>
      TailRead(f, path, query);
      assert "" + s == s;
  }

  lemma HostRead(f: Fields, u: Url)
    requires Clean(Flat(u)) && f == EMPTY.(scheme := f.scheme)
    ensures FromHost(f, Rest(u)) == Flat(u).(scheme := f.scheme)
  {
    hide AfterHost, QueryText, Until, Free, CleanScheme;
    var tail := Text(":", u.port) + (u.path + QueryText(u.query));
    AfterHostRead(f.(hostName := u.host), u.port, u.path, u.query);
    UntilEnd(u.host, tail, ":/?");
    assert Rest(u)[1..] == u.host + tail;
  }

  lemma SchemeRead(scheme: string, rest: string)
    requires Free(scheme, ":") && |rest| > 0 && rest[0] == '/'
    ensures FromScheme(scheme + ":/" + rest) == FromHost(EMPTY.(scheme := scheme), rest)
  {
    hide FromHost, Until, Free;
    UntilEnd(scheme, ":/" + rest, ":");
    Cut(scheme, ":/", rest);
  }

  lemma ParseAssembled(u: Url)
    requires Clean(Flat(u))
    ensures Parse(Assemble(u)) == Flat(u)
  {
    hide FromHost, FromScheme, QueryText, Free, Until;
    match u.scheme
    case None =>
      assert Assemble(u) == Rest(u);
      HostRead(EMPTY, u);
    case Some(scheme) =>
      HostRead(EMPTY.(scheme := scheme), u);
      assert Text("", u.scheme) == scheme;
      SchemeRead(scheme, Rest(u));
      assert Assemble(u) == scheme + ":/" + Rest(u);
      assert Assemble(u)[0] == if scheme != "" then scheme[0] else ':';
  }

  lemma CleanFromParam(f: Fields, s: string)
    requires Clean(f) && s != ""
    ensures Clean(FromParam(f, s))
  {
  }

  lemma CleanFromPath(f: Fields, s: string)
    requires Clean(f) && (s != "" ==> s[0] == '/')
    ensures Clean(FromPath(f, s))
  {
    hide FromParam;
    var n := Until(s, "?");
    assert Clean(f.(path := s[..n]));
    if n < |s| {
      CleanFromParam(f.(path := s[..n]), s[n..]);
    }
  }

  lemma CleanAfterPort(f: Fields, s: string)
    requires Clean(f) && (s != "" ==> s[0] in "/?")
    ensures Clean(AfterPort(f, s))
  {
    hide FromParam, FromPath, Clean;
    if s != "" {
      if s[0] == '?' {
        CleanFromParam(f, s);
      } else {
        CleanFromPath(f, s);
      }
    }
  }

  lemma CleanFromPort(f: Fields, s: string)
    requires Clean(f) && s != ""
    ensures Clean(FromPort(f, s))
  {
    hide AfterPort;
    var t := s[1..];
    var n := Until(t, "/?");
    CleanAfterPort(f.(port := t[..n]), t[n..]);
  }

  lemma CleanFromHost(f: Fields, s: string)
    requires Clean(f)
    ensures Clean(FromHost(f, s))
  {
    hide FromPort, AfterPort;
    if s != "" && s[0] == '/' {
      var t := s[1..];
      var n := Until(t, ":/?");
      var g := f.(hostName := t[..n]);
      assert Clean(g);
      if n < |t| && t[n] == ':' {
        CleanFromPort(g, t[n..]);
      } else {
        CleanAfterPort(g, t[n..]);
      }
    }
  }

  /** Whatever the input, no field holds a character that ends it. */
  lemma ParsedIsClean(raw: string)
    ensures Clean(Parse(raw))
  {
    hide FromHost;
    var s := SkipSpaces(raw);
    SkipsSpaces(raw);
    if s != "" && s[0] == '/' {
      CleanFromHost(EMPTY, s);
    } else {
      var n := Until(s, ":");
      var g := EMPTY.(scheme := s[..n]);
      assert Clean(g);
      if |s| - n >= 3 {
        CleanFromHost(g, s[n + 2..]);
      }
    }
  }

  /** Parsing recovers every component exactly when no component holds a
      character that ends it. */
  lemma UrlRoundTrip(u: Url)
    ensures Parse(Assemble(u)) == Flat(u) <==> Clean(Flat(u))
  {
    hide Parse, Clean;
    ParsedIsClean(Assemble(u));
    if Clean(Flat(u)) {
      ParseAssembled(u);
    }
  }

  /** A host with a colon is such a URL: what follows the colon becomes the port. */
  lemma HostWithColon(port: string)
    requires Free(port, "/?") && port != ""
    ensures var u := Url(None, ":" + port, None, "", None);
            Parse(Assemble(u)) == EMPTY.(port := port) != Flat(u)
  {
    var u, v := Url(None, ":" + port, None, "", None), Url(None, "", Some(port), "", None);
    assert Assemble(u) == Assemble(v) by {
      assert Rest(u) == "/" + (":" + port);
      assert Rest(v) == "/" + (":" + port);
    }
    assert Text("", v.port) == port;
    ParseAssembled(v);
  }

  /** The input has a slash where a host can begin. */
  predicate Complete(s: string) {
    var n := Until(s, ":");
    (s != "" && s[0] == '/') || (n + 2 < |s| && s[n + 1] == '/' && s[n + 2] == '/')
  }

  /** Any other input gives a scheme at the most. */
  lemma Incomplete(raw: string)
    requires !Complete(SkipSpaces(raw))
    ensures Parse(raw) == EMPTY.(scheme := Parse(raw).scheme)
  {
  }

  lemma ParamParts(s: string) returns (q: Query)
    requires s != "" && s[0] == '?'
    ensures QueryText(Some(q)) == s && Free(q.text, "#")
  {
    hide Until;
    var t := s[1..];
    var n := Until(t, "#");
    q := Query(t[..n], if n == |t| then None else Some(t[n + 1..]));
  }

  lemma NoQuery()
    ensures QueryText(None) == ""
  {
  }

  lemma PathParts(s: string) returns (path: string, query: Option<Query>)
    requires s != "" ==> s[0] in "/?"
    ensures s == path + QueryText(query) && CleanTail(path, query)
  {
    hide Until, QueryText;
    var n := Until(s, "?");
    path, query := s[..n], None;
    assert s == s[..n] + s[n..] && (n > 0 ==> s[..n][0] == s[0]);
    if n < |s| {
      var q := ParamParts(s[n..]);
      query := Some(q);
    } else {
      NoQuery();
    }
  }

  lemma PortParts(s: string) returns (port: Option<string>, path: string, query: Option<Query>)
    requires s != "" ==> s[0] in ":/?"
    ensures s == Text(":", port) + (path + QueryText(query))
    ensures Free(Text("", port), "/?") && CleanTail(path, query)
  {
    hide QueryText, Until, CleanTail;
    if s != "" && s[0] == ':' {
      var t := s[1..];
      var m := Until(t, "/?");
      path, query := PathParts(t[m..]);
      port := Some(t[..m]);
      assert "" + t[..m] == t[..m];
      Cut(":", t[..m], t[m..]);
      assert s == ":" + (t[..m] + t[m..]);
    } else {
      port := None;
      path, query := PathParts(s);
      assert "" + s == s;
    }
  }

  lemma HostParts(s: string) returns (host: string, port: Option<string>, path: string, query: Option<Query>)
    ensures s == host + (Text(":", port) + (path + QueryText(query)))
    ensures Free(host, ":/?") && Free(Text("", port), "/?") && CleanTail(path, query)
  {
    hide QueryText, Until;
    var n := Until(s, ":/?");
    host := s[..n];
    port, path, query := PortParts(s[n..]);
  }

  lemma SchemeParts(s: string) returns (scheme: Option<string>, rest: string)
    requires Complete(s) && s[0] != ' '
    ensures rest != "" && rest[0] == '/' && s == SchemeText(scheme) + rest && CleanScheme(Text("", scheme))
  {
    hide Until;
    if s[0] == '/' {
      scheme, rest := None, s;
    } else {
      var n := Until(s, ":");
      scheme, rest := Some(s[..n]), s[n + 2..];
      assert "" + s[..n] == s[..n];
      assert s == s[..n] + ":/" + rest;
    }
  }

  /** Every input with a slash in the right place is the text of a URL whose
      components are what the parser reports. */
  lemma EveryInputIsAUrl(raw: string) returns (u: Url)
    requires Complete(SkipSpaces(raw))
    ensures Assemble(u) == SkipSpaces(raw) && Parse(raw) == Flat(u)
  {
    hide QueryText, Until, FromHost, FromScheme, Free, CleanScheme, SchemeText;
    SkipsSpaces(raw);
    var scheme, rest := SchemeParts(SkipSpaces(raw));
    var host, port, path, query := HostParts(rest[1..]);
    u := Url(scheme, host, port, path, query);
    assert rest == "/" + rest[1..];
    ParseAssembled(u);
  }
}
