/**
 The identity of a calling app: the namespace and app id in the path of its SPIFFE ID. Assumed of the SPIFFE library is the
 character set that section 2.2 of the SPIFFE-ID standard allows in a path, which it enforces on every ID it makes.
 */
module Spiffe {
  import opened Text
  import opened AclSpec

  predicate IdChar(c: char)
  {
    'a' <= c <= 'z' || 'A' <= c <= 'Z' || '0' <= c <= '9' || c == '.' || c == '-' || c == '_'
  }

  /** A segment that the library accepts. */
  predicate IdSegment(s: string)
  {
    s != "" && s != "." && s != ".." && forall c <- s :: IdChar(c)
  }

  /** The path of an ID: empty, or segments behind slashes. */
  predicate IdPath(path: string)
  {
    var parts := Split(path, '/');
    path == "" || (|parts| > 1 && parts[0] == "" && forall i :: 1 <= i < |parts| ==> IdSegment(parts[i]))
  }

  /** `FromID`: the second and third segment behind "ns"; further segments are allowed. */
  function FromId(path: string, trustDomain: string): (caller: Option<Caller>)
  {
    var parts := Split(path, '/');
    if |parts| < 4 || parts[0] != "" || parts[1] != "ns" || parts[2] == "" || parts[3] == "" then None
    else Some(Caller(parts[3], parts[2], trustDomain))
  }

  /** `FromStrings`: the path it gives the ID and the identity it returns; None if the library refuses a segment. */
  function FromStrings(trustDomain: string, namespace: string, appId: string): (r: Option<(string, Caller)>)
  {
    if trustDomain == "" || !IdSegment(namespace) || !IdSegment(appId) then None
    else Some((Join(["", "ns", namespace, appId], "/"), Caller(appId, namespace, trustDomain)))
  }

  lemma SegmentIsPlain(s: string)
    requires IdSegment(s)
    ensures '|' !in s && '/' !in s
  {
    assert !IdChar('|') && !IdChar('/');
  }

  /** Every identity is free of bars: whichever way it is made, neither its app id nor its namespace holds one. */
  lemma IdentityHasNoBar(path: string, trustDomain: string)
    requires IdPath(path) && FromId(path, trustDomain).Some?
    ensures BarFree(FromId(path, trustDomain))
  {
    var parts := Split(path, '/');
    SegmentIsPlain(parts[2]);
    SegmentIsPlain(parts[3]);
  }

  /** An identity made from strings is the one read from its ID. */
  lemma IdentityRoundTrip(trustDomain: string, namespace: string, appId: string)
    requires FromStrings(trustDomain, namespace, appId).Some?
    ensures var (path, caller) := FromStrings(trustDomain, namespace, appId).value;
            && path == "/ns/" + namespace + "/" + appId
            && caller == Caller(appId, namespace, trustDomain) && FromId(path, trustDomain) == Some(caller)
            && IdPath(path) && BarFree(Some(caller))
  {
    var parts := ["", "ns", namespace, appId];
    SegmentIsPlain(namespace);
    SegmentIsPlain(appId);
    assert parts[1] == ['n', 's'] && IdSegment(parts[1]);
    SplitJoin(parts, '/');
    JoinCons(namespace, [appId], "/");
    JoinCons("ns", [namespace] + [appId], "/");
    JoinCons("", ["ns"] + ([namespace] + [appId]), "/");
    assert parts == [""] + (["ns"] + ([namespace] + [appId]));
    assert "" + "/" + ("ns" + "/" + (namespace + "/" + appId)) == "/ns/" + namespace + "/" + appId;
    assert Join(parts, "/") == "/ns/" + namespace + "/" + appId;
  }

  /** The paths that are read, and what is read from them: the namespace and the app id behind "ns", and then the end of
      the path or a slash. */
  ghost predicate Names(path: string, namespace: string, appId: string)
  {
    var prefix := "/ns/" + namespace + "/" + appId;
    && namespace != "" && '/' !in namespace && appId != "" && '/' !in appId
    && prefix <= path && (path == prefix || path[|prefix|] == '/')
  }

  /** What follows a first piece. */
  lemma FirstPiece(p: string, rest: string)
    requires '/' !in p && (rest == "" || rest[0] == '/')
    ensures Split(p + rest, '/')[0] == p
  {
    if rest == "" {
      assert p + rest == p;
      SplitNone(p, '/');
    } else {
      assert p + rest == p + ['/'] + rest[1..];
      SplitFirst(p, rest[1..], '/');
    }
  }

  /** The pieces of a path that names an app. */
  lemma NamedPieces(namespace: string, appId: string, rest: string)
    requires '/' !in namespace && '/' !in appId && (rest == "" || rest[0] == '/')
    ensures Split("/ns/" + namespace + "/" + appId + rest, '/') ==
            [""] + (["ns"] + ([namespace] + Split(appId + rest, '/')))
  {
    var last := appId + rest;
    var middle := namespace + ['/'] + last;
    var first := "ns" + ['/'] + middle;
    SplitFirst(namespace, last, '/');
    SplitFirst("ns", middle, '/');
    SplitFirst("", first, '/');
    SpeltOut(namespace, appId, rest);
  }

  lemma SpeltOut(namespace: string, appId: string, rest: string)
    ensures "" + ['/'] + ("ns" + ['/'] + (namespace + ['/'] + (appId + rest))) == "/ns/" + namespace + "/" + appId + rest
  {
    assert "" + ['/'] + ("ns" + ['/']) == "/ns/";
  }

  lemma NamedIsRead(path: string, namespace: string, appId: string, trustDomain: string)
    requires Names(path, namespace, appId)
    ensures FromId(path, trustDomain) == Some(Caller(appId, namespace, trustDomain))
  {
    var prefix := "/ns/" + namespace + "/" + appId;
    var rest := path[|prefix|..];
    assert path == prefix + rest;
    NamedPieces(namespace, appId, rest);
    FirstPiece(appId, rest);
  }

  /** A path of at least four pieces begins with them. */
  lemma FourPieces(parts: seq<string>, n: string, m: string)
    requires |parts| >= 4 && parts[0] == "" && parts[1] == n && parts[2] == m
    ensures Join(parts, "/") == "/" + n + "/" + m + "/" + Join(parts[3..], "/")
  {
    JoinCons(m, parts[3..], "/");
    JoinCons(n, [m] + parts[3..], "/");
    JoinCons("", [n] + ([m] + parts[3..]), "/");
    assert parts == [""] + ([n] + ([m] + parts[3..]));
    assert "" + "/" + (n + "/" + (m + "/" + Join(parts[3..], "/"))) == "/" + n + "/" + m + "/" + Join(parts[3..], "/");
  }

  lemma JoinBegins(parts: seq<string>)
    requires parts != []
    ensures parts[0] <= Join(parts, "/") && (Join(parts, "/") == parts[0] || Join(parts, "/")[|parts[0]|] == '/')
  {
  }

  lemma ReadIsNamed(path: string, trustDomain: string)
    requires FromId(path, trustDomain).Some?
    ensures var c := FromId(path, trustDomain).value;
            Names(path, c.namespace, c.appId) && c.trustDomain == trustDomain
  {
    var parts := Split(path, '/');
    var prefix := "/" + "ns" + "/" + parts[2] + "/";
    FourPieces(parts, "ns", parts[2]);
    JoinBegins(parts[3..]);
    assert path == prefix + Join(parts[3..], "/");
    assert prefix + parts[3] == "/ns/" + parts[2] + "/" + parts[3];
    assert parts[2] in parts && parts[3] in parts;
  }

  /** An identity is read from a path exactly if the path names it. */
  lemma IdentityIsNamed(path: string, trustDomain: string, namespace: string, appId: string)
    ensures FromId(path, trustDomain) == Some(Caller(appId, namespace, trustDomain)) <==> Names(path, namespace, appId)
  {
    if Names(path, namespace, appId) {
      NamedIsRead(path, namespace, appId, trustDomain);
    } else if FromId(path, trustDomain).Some? {
      ReadIsNamed(path, trustDomain);
    }
  }
}
