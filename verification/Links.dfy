/**
 The links that the HTTP server's directory listing emits, and where the server sends a browser that
 follows one.
 */
module Links {
  import opened Bytes
  import opened Words
  import opened Percent
  import opened PercentCodec
  import opened Upload
  import opened Paths

  const QUERY: byte := 63
  const QUOTE: byte := 34
  const GET: Text := [71, 69, 84]
  const VERSION: Text := [72, 84, 84, 80, 47, 49, 46, 49]
  const FAVICON: Text := [102, 97, 118, 105, 99, 111, 110, 46, 105, 99, 111]
  const PATH_SIZE := 1024

  datatype Kind = Directory | File

  /** `NoPath` is an empty path, whose last character the code reads before the buffer. */
  datatype Route = NoPath | Favicon | ToDirectory(path: Text) | ToFile(path: Text)

  /** Lines 77-82 and 92-97. */
  function Join(base: Text, name: Text): Text
    requires base != []
  {
    base + (if base[|base| - 1] != SLASH then [SLASH] else []) + name
  }

  /** The href: a file's ends in a question mark. */
  function Href(base: Text, name: Text, kind: Kind): Text
    requires base != []
  {
    if kind == File then Join(base, name) + [QUERY] else Join(base, name)
  }

  /** What a browser takes from `href="..."`: up to the next quote. */
  function Attribute(text: Text): (t: Text)
    ensures |t| <= |text| && t == text[..|t|] && 34 !in t
    ensures |t| < |text| ==> text[|t|] == 34
  {
    if text == [] || text[0] == QUOTE then [] else [text[0]] + Attribute(text[1..])
  }

  /** The request for a target, and the path that `sscanf("%s%s")` takes from it. */
  function Request(target: Text): Text {
    GET + ([BLANK] + target + ([BLANK] + VERSION))
  }

  lemma RequestIs(target: Text)
    ensures Request(target) == Ascii("GET ") + target + Ascii(" HTTP/1.1")
  {
    assert Ascii("GET ") == GET + [BLANK] && Ascii(" HTTP/1.1") == [BLANK] + VERSION;
    Assoc(GET, [BLANK] + target, Ascii(" HTTP/1.1"));
    Assoc(GET, [BLANK], target);
  }

  function PathOf(request: Text): Text {
    ReadWord(ReadWord(request).1).0
  }

  /** Lines 196-230. */
  function RouteOf(path: Text): Route {
    if path == [] then NoPath
    else if Contains(path, FAVICON) then Favicon
    else if path[|path| - 1] != QUERY then ToDirectory(path)
    else ToFile(path[..|path| - 1])
  }

  /** Where following the link of an entry leads. */
  function Follow(base: Text, name: Text, kind: Kind): Route
    requires base != []
  {
    RouteOf(UpToNul(Decode(PathOf(Request(Attribute(Href(base, name, kind)))))))
  }

  /** The base and the name with one separator between them. */
  function Below(base: Text, name: Text): (p: Text)
    requires base != []
    ensures p != []
  {
    (if base[|base| - 1] == 47 then base else base + [47]) + name
  }

  /** Where it should lead: to the same kind, below the base. */
  function Wanted(base: Text, name: Text, kind: Kind): Route
    requires base != []
  {
    if kind == Directory then ToDirectory(Below(base, name)) else ToFile(Below(base, name))
  }

  /** A `%` and two hexadecimal digits stand at `i`. */
  ghost predicate EscapeAt(t: Text, i: nat) {
    i + 2 < |t| && t[i] == 37 && Digit(t[i + 1]) && Digit(t[i + 2])
  }

  /** Text that neither the browser, nor `sscanf`, nor the decoder changes: no quote, plus or escape. */
  ghost predicate Untouched(t: Text) {
    IsToken(t) && 34 !in t && 43 !in t && !exists i: nat :: EscapeAt(t, i)
  }

  predicate HasEscape(t: Text) {
    t != [] && (Escape(t) || HasEscape(t[1..]))
  }

  lemma {:induction false} HasEscapeIff(t: Text)
    ensures HasEscape(t) <==> exists i: nat :: EscapeAt(t, i)
  {
    if t != [] {
      HasEscapeIff(t[1..]);
      if |t| >= 3 {
        IsHexIff(t[1]);
        IsHexIff(t[2]);
        assert Escape(t) <==> EscapeAt(t, 0);
      }
      if i: nat :| EscapeAt(t[1..], i) {
        assert EscapeAt(t, i + 1);
      }
      if i: nat :| EscapeAt(t, i) {
        assert i > 0 ==> EscapeAt(t[1..], i - 1);
      }
    }
  }

  lemma {:induction false} FixedIff(t: Text)
    ensures |Decode(t)| == |t| <==> !HasEscape(t)
    ensures Decode(t) == t <==> PLUS !in t && !HasEscape(t)
  {
    if t != [] {
      if !Escape(t) {
        FixedIff(t[1..]);
        assert t == [t[0]] + t[1..];
        SameHead([t[0]], Decode(t[1..]), t[1..]);
        if t[0] == PLUS {
          assert Decode(t)[0] == SPACE;
        }
      }
    }
  }

  /**
   The path the server sees: the target itself if that is a token, else something shorter, or the
   protocol version when the target is all whitespace.
   */
  ghost predicate Seen(target: Text, p: Text) {
    && p != []
    && (IsToken(target) ==> p == target)
    && (!IsToken(target) ==> |p| < |target| || (p == VERSION && forall c <- target :: IsSpace(c)))
    && (QUOTE !in target ==> QUOTE !in p)
  }

  lemma PathOfRequest(target: Text)
    ensures Seen(target, PathOf(Request(target)))
  {
    var after := [BLANK] + target + ([BLANK] + VERSION);
    assert forall i :: 0 <= i < |GET| ==> !IsSpace(GET[i]);
    ReadFirstWord(GET, after);
    WordInside(target, [BLANK] + VERSION);
    assert after[1..] == target + ([BLANK] + VERSION);
    assert SkipSpace(after) == SkipSpace(target + ([BLANK] + VERSION));
  }

  lemma SeenLater(target: Text, p: Text)
    requires target != [] && IsSpace(target[0]) && Seen(target[1..], p)
    ensures Seen(target, p)
  {
    assert target[0] in target;
    assert forall c :: c in target <==> c == target[0] || c in target[1..];
  }

  /** The first word of a text followed by a blank and the version. */
  lemma {:induction false} WordInside(target: Text, tail: Text)
    requires tail == [BLANK] + VERSION
    ensures Seen(target, Word(SkipSpace(target + tail)))
  {
    if target == [] {
      VersionIsWord(tail);
      assert target + tail == tail;
    } else if IsSpace(target[0]) {
      WordInside(target[1..], tail);
      assert (target + tail)[1..] == target[1..] + tail;
      assert SkipSpace(target + tail) == SkipSpace(target[1..] + tail);
      SeenLater(target, Word(SkipSpace(target[1..] + tail)));
    } else {
      assert SkipSpace(target + tail) == target + tail;
      WordOfTarget(target, tail);
    }
  }

  lemma WordOfTarget(target: Text, tail: Text)
    requires tail == [BLANK] + VERSION && target != [] && !IsSpace(target[0])
    ensures Word(target + tail) == Word(target) != []
    ensures IsToken(target) <==> |Word(target)| == |target|
  {
    var w := Word(target);
    assert target == w + target[|w|..];
    Assoc(w, target[|w|..], tail);
    WordIs(w, target[|w|..] + tail);
    if |w| == |target| {
      assert target == w;
    } else {
      assert target[|w|] in target;
    }
  }

  lemma VersionIsWord(tail: Text)
    requires tail == [BLANK] + VERSION
    ensures Word(SkipSpace(tail)) == VERSION && QUOTE !in VERSION
  {
    assert tail[1..] == VERSION;
    assert SkipSpace(tail) == VERSION;
    assert forall i :: 0 <= i < |VERSION| ==> !IsSpace(VERSION[i]);
    WordIs(VERSION, []);
    assert VERSION + [] == VERSION;
  }

  /** The path arrives as the href was written if and only if the href is untouched. */
  lemma ArrivesIff(href: Text)
    requires href != [] && 0 !in href
    ensures UpToNul(Decode(PathOf(Request(Attribute(href))))) == href <==> Untouched(href)
  {
    var target := Attribute(href);
    var p := PathOf(Request(target));
    PathOfRequest(target);
    FixedIff(p);
    HasEscapeIff(p);
    HasEscapeIff(href);
    if QUOTE !in href {
      assert target == href;
      if IsToken(href) {
        UpToNulIs(href, |href|);
        assert href[..|href|] == href;
      } else if |p| >= |href| {
        assert IsSpace(href[0]);
        VersionPath(href);
      }
    } else {
      assert |target| < |href|;
      if |p| > |target| {
        assert href[0] == QUOTE || IsSpace(href[0]);
        VersionPath(href);
      }
    }
  }

  /** The protocol version is not an href that starts with whitespace or a quote. */
  lemma VersionPath(href: Text)
    requires href != [] && (href[0] == QUOTE || IsSpace(href[0]))
    ensures UpToNul(Decode(VERSION)) != href
  {
    assert VERSION[0] == 72;
    assert Decode(VERSION)[0] == 72;
  }

  lemma {:induction false} EscapesBeforeQuery(p: Text)
    ensures HasEscape(p + [QUERY]) <==> HasEscape(p)
  {
    if p == [] {
      assert p + [QUERY] == [QUERY];
      assert !HasEscape([QUERY][1..]);
    } else {
      EscapesBeforeQuery(p[1..]);
      assert (p + [QUERY])[1..] == p[1..] + [QUERY];
      assert Escape(p + [QUERY]) == Escape(p);
    }
  }

  lemma FaviconBeforeQuery(p: Text)
    ensures Contains(p + [QUERY], FAVICON) <==> Contains(p, FAVICON)
  {
    var h := p + [QUERY];
    assert FAVICON[10] == 111;
    if Contains(p, FAVICON) {
      var i :| 0 <= i <= |p| - |FAVICON| && FoundAt(p, FAVICON, i);
      assert h[i..i + |FAVICON|] == p[i..i + |FAVICON|];
      assert FoundAt(h, FAVICON, i);
    }
    if Contains(h, FAVICON) {
      var i :| 0 <= i <= |h| - |FAVICON| && FoundAt(h, FAVICON, i);
      assert h[i..i + |FAVICON|][10] == 111;
      assert h[i..i + |FAVICON|] == p[i..i + |FAVICON|];
      assert FoundAt(p, FAVICON, i);
    }
  }

  /** The paths for which a link leads where it should. */
  ghost predicate Routable(p: Text, kind: Kind)
    requires p != []
  {
    && Untouched(p) && !Contains(p, Ascii("favicon.ico"))
    && (kind == Directory ==> p[|p| - 1] != 63)
  }

  lemma FaviconIs()
    ensures FAVICON == Ascii("favicon.ico")
  {
  }

  lemma UntouchedBeforeQuery(p: Text)
    requires p != []
    ensures Untouched(p + [QUERY]) <==> Untouched(p)
  {
    EscapesBeforeQuery(p);
    HasEscapeIff(p);
    HasEscapeIff(p + [QUERY]);
    assert forall c :: c in p + [QUERY] <==> c in p || c == QUERY;
  }

  /** A path is routed to a directory `p` only if it is `p`, and to a file `p` only if it is `p?`. */
  lemma RouteIff(path: Text, p: Text, kind: Kind)
    requires p != []
    ensures var href := if kind == File then p + [QUERY] else p;
            var wanted := if kind == File then ToFile(p) else ToDirectory(p);
            RouteOf(path) == wanted <==>
            path == href && !Contains(href, FAVICON) && (kind == Directory ==> p[|p| - 1] != QUERY)
  {
    if kind == File {
      assert (p + [QUERY])[..|p|] == p;
      if path != [] && path[|path| - 1] == QUERY {
        assert path == path[..|path| - 1] + [QUERY];
      }
    }
  }

  /**
   Following a link leads to the entry it was made for, and to the same kind, if and only if the path
   has no whitespace, quote, `+`, escape or "favicon.ico", and, for a directory, no `?` at its end.
   */
  lemma {:induction false} LinkRoutingIff(base: Text, name: Text, kind: Kind)
    requires base != [] && 0 !in base && 0 !in name
    ensures Follow(base, name, kind) == Wanted(base, name, kind) <==> Routable(Below(base, name), kind)
  {
    var p := Below(base, name);
    var arrived := UpToNul(Decode(PathOf(Request(Attribute(Href(base, name, kind))))));
    ArrivesBelowIff(base, name, kind, arrived);
    RouteIff(arrived, p, kind);
    FaviconIs();
    FaviconBeforeQuery(p);
  }

  lemma ArrivesBelowIff(base: Text, name: Text, kind: Kind, arrived: Text)
    requires base != [] && 0 !in base && 0 !in name
    requires arrived == UpToNul(Decode(PathOf(Request(Attribute(Href(base, name, kind))))))
    ensures var p := Below(base, name);
            arrived == (if kind == File then p + [QUERY] else p) <==> Untouched(p)
  {
    var p := Below(base, name);
    HrefIs(base, name, kind);
    assert p + [] == p;
    ArrivesIff(Href(base, name, kind));
    if kind == File {
      UntouchedBeforeQuery(p);
    }
  }

  /**
   Where the links with a path that arrives untouched lead instead: to the icon, or, for a directory
   whose name ends in a question mark, to a file without it.
   */
  lemma {:induction false} OtherRoutes(base: Text, name: Text, kind: Kind)
    requires base != [] && 0 !in base && 0 !in name && Untouched(Below(base, name))
    ensures var p := Below(base, name);
            Follow(base, name, kind) ==
              if Contains(p, Ascii("favicon.ico")) then Favicon
              else if kind == Directory && p[|p| - 1] == 63 then ToFile(p[..|p| - 1])
              else Wanted(base, name, kind)
  {
    Undisturbed(base, name, kind);
    HrefIs(base, name, kind);
    RouteOfHref(Below(base, name), kind);
  }

  lemma Undisturbed(base: Text, name: Text, kind: Kind)
    requires base != [] && 0 !in base && 0 !in name && Untouched(Below(base, name))
    ensures Follow(base, name, kind) == RouteOf(Href(base, name, kind))
  {
    var p, href := Below(base, name), Href(base, name, kind);
    HrefIs(base, name, kind);
    assert p + [] == p;
    if kind == File {
      UntouchedBeforeQuery(p);
    }
    assert Untouched(href);
    ArrivesIff(href);
  }

  lemma HrefIs(base: Text, name: Text, kind: Kind)
    requires base != []
    ensures Href(base, name, kind) == Below(base, name) + if kind == File then [63] else []
  {
    assert base + [] == base && Below(base, name) + [] == Below(base, name);
  }

  lemma RouteOfHref(p: Text, kind: Kind)
    requires p != []
    ensures RouteOf(p + if kind == File then [63] else []) ==
              if Contains(p, Ascii("favicon.ico")) then Favicon
              else if kind == File then ToFile(p)
              else if p[|p| - 1] == 63 then ToFile(p[..|p| - 1]) else ToDirectory(p)
  {
    FaviconIs();
    FaviconBeforeQuery(p);
    assert (p + [63])[..|p|] == p && p + [] == p;
  }

  /** In a listing of the directory of a stack of folders, the links of folders lead one folder down. */
  lemma LinkGoesDown(stack: seq<Text>, folder: Text)
    requires Folders(stack) && IsFolder(folder)
    ensures Follow(Render(stack), folder, Directory) == ToDirectory(Render(stack + [folder]))
            <==> Routable(Render(stack + [folder]), Directory)
  {
    DownIsPush(stack, folder);
    RenderHasNoNul(stack);
    LinkRoutingIff(Render(stack), folder, Directory);
  }

  lemma {:induction false} RenderHasNoNul(stack: seq<Text>)
    requires Folders(stack)
    ensures 0 !in Joined(stack) && 0 !in Render(stack)
  {
    if stack != [] {
      RenderHasNoNul(stack[..|stack| - 1]);
      assert stack[|stack| - 1] in stack;
    }
  }

  /**
   Lines 190-230 on the path of a request that fits its buffer: decode into a second buffer, copy
   back, and cut the question mark in place.
   */
  method HandleGet(request: Text) returns (route: Route)
    requires 0 !in request && |PathOf(request)| < 1024
    ensures route == RouteOf(UpToNul(Decode(PathOf(request))))
    ensures var p := UpToNul(Decode(PathOf(request)));
            && (route == NoPath <==> p == [])
            && (route == Favicon <==> Contains(p, Ascii("favicon.ico")))
            && (forall q :: route == ToFile(q) <==> p == q + [63] && route != Favicon)
            && (forall q :: route == ToDirectory(q) <==>
                  p == q != [] && q[|q| - 1] != 63 && route != Favicon)
  {
    var token := PathOf(request);
    var path := new byte[PATH_SIZE](i => if 0 <= i < |token| then token[i] else 0);
    var decoded := new byte[PATH_SIZE](_ => 0);
    TokenHasNoNul(request);
    assert path[..][..|token|] == token && path[..][|token|] == 0;
    UpToNulIs(path[..], |token|);
    UrlDecode(decoded, path);
    CutTwice(decoded[..], Decode(token));
    assert decoded[..][|Decode(token)|] == 0;
    CopyString(path, decoded);
    route := RouteBuffer(path);
    RouteIs(UpToNul(Decode(token)));
  }

  lemma RouteIs(p: Text)
    ensures var route := RouteOf(p);
            && (route == NoPath <==> p == [])
            && (route == Favicon <==> Contains(p, Ascii("favicon.ico")))
            && (forall q :: route == ToFile(q) <==> p == q + [63] && route != Favicon)
            && (forall q :: route == ToDirectory(q) <==>
                  p == q != [] && q[|q| - 1] != 63 && route != Favicon)
  {
    FaviconIs();
    if p != [] {
      assert p == p[..|p| - 1] + [p[|p| - 1]];
    }
    forall q: Text
      ensures p == q + [63] ==> p != [] && p[|p| - 1] == 63 && p[..|p| - 1] == q
    {
    }
  }

  /** `strcpy`. */
  method CopyString(dst: array<byte>, src: array<byte>)
    requires dst != src && 0 in src[..] && |UpToNul(src[..])| < dst.Length
    modifies dst
    ensures 0 in dst[..] && UpToNul(dst[..]) == UpToNul(src[..])
  {
    ghost var s := UpToNul(src[..]);
    var i := 0;
    while src[i] != 0
      invariant i <= |s| < src.Length && dst[..i] == s[..i]
      decreases src.Length - i
    {
      assert src[..][i] == s[i];
      dst[i] := src[i];
      i := i + 1;
      assert dst[..i] == dst[..i - 1] + [s[i - 1]];
    }
    assert src[..][i] == 0 && i == |s|;
    dst[i] := 0;
    assert dst[..][i] == 0 && dst[..][..i] == s;
    UpToNulIs(dst[..], i);
  }

  /** Lines 194-230, on the decoded path in its buffer. */
  method RouteBuffer(path: array<byte>) returns (route: Route)
    requires 0 in path[..]
    modifies path
    ensures route == RouteOf(UpToNul(old(path[..])))
  {
    var text := UpToNul(path[..]);
    if text == [] {
      return NoPath;
    }
    var last := |text| - 1;
    assert path[..][last] == text[last];
    if Contains(text, FAVICON) {
      route := Favicon;
    } else if path[last] != QUERY {
      route := ToDirectory(text);
    } else {
      path[last] := 0;
      assert path[..][last] == 0;
      assert path[..][..last] == text[..last];
      UpToNulIs(path[..], last);
      route := ToFile(UpToNul(path[..]));
    }
  }

  lemma {:induction false} SkipIsSuffix(t: Text)
    ensures exists k :: 0 <= k <= |t| && SkipSpace(t) == t[k..]
  {
    if t != [] && IsSpace(t[0]) {
      SkipIsSuffix(t[1..]);
      var k :| 0 <= k <= |t| - 1 && SkipSpace(t[1..]) == t[1..][k..];
      assert SkipSpace(t) == t[k + 1..];
    } else {
      assert t[0..] == t;
    }
  }

  lemma TokenHasNoNul(request: Text)
    requires 0 !in request
    ensures 0 !in PathOf(request)
  {
    SkipIsSuffix(request);
    SkipIsSuffix(ReadWord(request).1);
  }

  /** A buffer that holds `d` and then a NUL holds the C string of `d`. */
  lemma CutTwice(buffer: seq<byte>, d: seq<byte>)
    requires |d| < |buffer| && buffer[..|d|] == d && buffer[|d|] == 0
    ensures UpToNul(buffer) == UpToNul(d)
  {
    var n := |UpToNul(d)|;
    assert buffer[..n] == d[..n];
    assert n < |d| ==> buffer[n] == d[n];
    UpToNulIs(buffer, n);
  }
}
