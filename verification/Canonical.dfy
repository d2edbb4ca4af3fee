/**
 The form in which an HTTP operation is matched against the access-control list: percent-escapes
 decoded once (section 2.1 of RFC 3986), path parameters dropped (section 3.3), dot segments refused
 (section 5.2.4). Characters stand for bytes, so every escape decodes to a character below 256.
 */
module Canonical {
  import opened Text

  const ESCAPED_STAR := "%2a"

  predicate IsHex(c: char)
  {
    '0' <= c <= '9' || 'a' <= c <= 'f' || 'A' <= c <= 'F'
  }

  function Unhex(c: char): (n: nat)
    requires IsHex(c)
    ensures n < 16
  {
    if '0' <= c <= '9' then c as int - '0' as int
    else if 'a' <= c <= 'f' then c as int - 'a' as int + 10
    else c as int - 'A' as int + 10
  }

  /** The digits of section 2.1 of RFC 3986, in lower case. */
  function HexDigit(n: nat): (c: char)
    requires n < 16
  {
    "0123456789abcdef"[n]
  }

  /** The value of a hexadecimal digit is its place among the sixteen, in either case. */
  lemma HexValue(c: char, n: nat)
    requires n < 16
    ensures LowerChar(c) == HexDigit(n) <==> IsHex(c) && Unhex(c) == n
  {
  }

  predicate StartsWithEscape(s: string)
  {
    |s| >= 3 && s[0] == '%' && IsHex(s[1]) && IsHex(s[2])
  }

  predicate StartsWithEscapedStar(s: string)
  {
    |s| >= 3 && s[0] == '%' && s[1] == '2' && (s[2] == 'a' || s[2] == 'A')
  }

  function Escaped(s: string): (c: char)
    requires StartsWithEscape(s)
    ensures (c as int) < 256
    ensures c == '*' <==> StartsWithEscapedStar(s)
  {
    (16 * Unhex(s[1]) + Unhex(s[2])) as char
  }

  /** `url.PathUnescape`: every escape decoded, or nothing if one is malformed. */
  function Unescape(s: string): (t: Option<string>)
  {
    if s == "" then Some("")
    else if s[0] != '%' then Prepend([s[0]], Unescape(s[1..]))
    else if StartsWithEscape(s) then Prepend([Escaped(s)], Unescape(s[3..]))
    else None
  }

  function Prepend(s: string, t: Option<string>): (r: Option<string>)
  {
    if t.Some? then Some(s + t.value) else None
  }

  /** `strings.ReplaceAll(s, "%2A", "%2a")`. */
  function LowerEscapedStars(s: string): (t: string)
  {
    if s == "" then ""
    else if |s| >= 3 && s[..3] == "%2A" then ESCAPED_STAR + LowerEscapedStars(s[3..])
    else [s[0]] + LowerEscapedStars(s[1..])
  }

  /** `strings.Split(s, "%2a")`. */
  function SplitEscapedStars(s: string): (parts: seq<string>)
    ensures |parts| >= 1
  {
    if s == "" then [""]
    else if |s| >= 3 && s[..3] == ESCAPED_STAR then [""] + SplitEscapedStars(s[3..])
    else
      var rest := SplitEscapedStars(s[1..]);
      [[s[0]] + rest[0]] + rest[1..]
  }

  /** The part of a segment before its first ";", as `strings.Cut` gives it. */
  function CutParameters(segment: string): (head: string)
    ensures ';' !in head && head <= segment
    ensures head == segment || segment[|head|] == ';'
  {
    if segment == "" || segment[0] == ';' then ""
    else
      assert segment == [segment[0]] + segment[1..];
      [segment[0]] + CutParameters(segment[1..])
  }

  /** A segment that an app would not route as it was checked. */
  predicate Refused(segment: string)
  {
    var head := CutParameters(segment);
    head == "." || head == ".." || (head == "" && ';' in segment)
  }

  // ----- the canonical form, read in one pass -----

  datatype Reading = Reading(decoded: string, stripped: string, ok: bool)

  /** The escapes decoded once, an escaped star left escaped in lower case; nothing if one is malformed. */
  function Decode(s: string): (t: Option<string>)
  {
    if s == "" then Some("")
    else if s[0] != '%' then Prepend([s[0]], Decode(s[1..]))
    else if StartsWithEscapedStar(s) then Prepend(ESCAPED_STAR, Decode(s[3..]))
    else if StartsWithEscape(s) then Prepend([Escaped(s)], Decode(s[3..]))
    else None
  }

  /** Whether decoding succeeds and neither adds nor removes a "/". */
  predicate Decodable(operation: string)
  {
    Decode(operation).Some? && Count(Decode(operation).value, '/') == Count(operation, '/')
  }

  function Plain(operation: string): (s: string)
  {
    if Decodable(operation) then Decode(operation).value else operation
  }

  function CutAll(segments: seq<string>): (heads: seq<string>)
    ensures |heads| == |segments|
  {
    seq(|segments|, i requires 0 <= i < |segments| => CutParameters(segments[i]))
  }

  function Read(operation: string): (r: Reading)
  {
    var segments := Split(Plain(operation), '/');
    Reading(ToLower(Plain(operation)),
            ToLower(Join(CutAll(segments), "/")),
            Decodable(operation) && forall segment <- segments :: !Refused(segment))
  }

  // ----- the code's way through pieces is the one-pass reading -----

  /** The pieces between escaped stars, each decoded, joined again; nothing if one is malformed. */
  function UnescapePieces(parts: seq<string>): (t: Option<string>)
    requires |parts| >= 1
  {
    if |parts| == 1 then Unescape(parts[0])
    else
      var head, rest := Unescape(parts[0]), UnescapePieces(parts[1..]);
      if head.Some? && rest.Some? then Some(head.value + ESCAPED_STAR + rest.value) else None
  }

  function Pieces(s: string): (parts: seq<string>)
    ensures |parts| >= 1
  {
    SplitEscapedStars(LowerEscapedStars(s))
  }

  lemma PiecesStep(s: string)
    requires s != ""
    ensures Pieces(s) == if StartsWithEscapedStar(s) then [""] + Pieces(s[3..])
                         else [[s[0]] + Pieces(s[1..])[0]] + Pieces(s[1..])[1..]
  {
    var low := LowerEscapedStars(s);
    if |s| >= 3 && s[..3] == "%2A" {
      assert s[..3][2] == 'A' && s[..3][1] == '2' && s[..3][0] == '%';
      assert low[..3] == ESCAPED_STAR && low[3..] == LowerEscapedStars(s[3..]);
    } else {
      assert low[0] == s[0] && low[1..] == LowerEscapedStars(s[1..]);
      assert |s| >= 3 ==> s[..3] == [s[0], s[1], s[2]];
      if StartsWithEscapedStar(s) {
        assert s[1..][0] == '2' && s[1..][1..] == s[2..] && s[2..][0] == 'a' && s[2..][1..] == s[3..];
        assert low == ESCAPED_STAR + LowerEscapedStars(s[3..]);
        assert low[..3] == ESCAPED_STAR && low[3..] == LowerEscapedStars(s[3..]);
      } else if |low| >= 3 && low[..3] == ESCAPED_STAR {
        assert low[..3][0] == '%' && low[..3][1] == '2' && low[..3][2] == 'a';
        LowerFirst(s[1..]);
        assert s[1..][1..] == s[2..];
        LowerFirst(s[2..]);
        assert false;
      }
    }
  }

  lemma LowerFirst(s: string)
    ensures LowerEscapedStars(s) == "" <==> s == ""
    ensures s != "" ==> LowerEscapedStars(s)[0] == s[0]
    ensures s != "" && s[0] != '%' ==> LowerEscapedStars(s)[1..] == LowerEscapedStars(s[1..])
  {
    if |s| >= 3 && s[..3] == "%2A" {
      assert s[..3][0] == '%';
    }
  }

  lemma UnescapeFirst(c: string, u: string, parts: seq<string>)
    requires |parts| >= 1
    requires Unescape(c + parts[0]) == Prepend(u, Unescape(parts[0]))
    ensures UnescapePieces([c + parts[0]] + parts[1..]) == Prepend(u, UnescapePieces(parts))
  {
    var longer := [c + parts[0]] + parts[1..];
    assert longer[1..] == parts[1..];
    if |parts| > 1 && Unescape(parts[0]).Some? && UnescapePieces(parts[1..]).Some? {
      ConcatAssoc(u, Unescape(parts[0]).value, UnescapePieces(parts[1..]).value);
    }
  }

  lemma ConcatAssoc(u: string, v: string, w: string)
    ensures (u + v) + ESCAPED_STAR + w == u + (v + ESCAPED_STAR + w)
  {
  }

  /** Splitting at escaped stars, decoding the pieces and joining them is the one-pass decoding. */
  lemma {:induction false} PiecesDecode(s: string)
    ensures UnescapePieces(Pieces(s)) == Decode(s)
    decreases |s|
  {
    if s == "" {
    } else if StartsWithEscapedStar(s) {
      PiecesStep(s);
      PiecesDecode(s[3..]);
      assert ([""] + Pieces(s[3..]))[1..] == Pieces(s[3..]);
      assert "" + ESCAPED_STAR == ESCAPED_STAR;
    } else if s[0] != '%' {
      PiecesStep(s);
      PiecesDecode(s[1..]);
      PlainFirst(s[0], Pieces(s[1..])[0]);
      UnescapeFirst([s[0]], [s[0]], Pieces(s[1..]));
    } else if StartsWithEscape(s) {
      EscapePieces(s);
      PiecesDecode(s[3..]);
      EscapeFirst(s[..3], Pieces(s[3..])[0]);
      UnescapeFirst(s[..3], [Escaped(s)], Pieces(s[3..]));
    } else {
      PiecesStep(s);
      BrokenEscape(s);
      var parts := [[s[0]] + Pieces(s[1..])[0]] + Pieces(s[1..])[1..];
      assert Unescape(parts[0]).None?;
    }
  }

  lemma PlainFirst(c: char, p: string)
    requires c != '%'
    ensures Unescape([c] + p) == Prepend([c], Unescape(p))
  {
    assert ([c] + p)[1..] == p;
  }

  lemma EscapeFirst(e: string, p: string)
    requires |e| == 3 && StartsWithEscape(e)
    ensures Unescape(e + p) == Prepend([Escaped(e)], Unescape(p))
  {
    assert (e + p)[3..] == p;
  }

  lemma EscapePieces(s: string)
    requires StartsWithEscape(s) && !StartsWithEscapedStar(s)
    ensures Pieces(s) == [s[..3] + Pieces(s[3..])[0]] + Pieces(s[3..])[1..]
  {
    PiecesStep(s);
    PiecesStep(s[1..]);
    PiecesStep(s[2..]);
    assert s[1..][1..] == s[2..] && s[2..][1..] == s[3..];
    var rest := Pieces(s[3..]);
    assert [s[0]] + ([s[1]] + ([s[2]] + rest[0])) == s[..3] + rest[0];
  }

  /** A malformed escape stays malformed in its piece: what follows the "%" is only cut short. */
  lemma BrokenEscape(s: string)
    requires s != "" && s[0] == '%' && !StartsWithEscape(s)
    ensures Unescape([s[0]] + Pieces(s[1..])[0]).None?
  {
    var first := Pieces(s[1..])[0];
    if |s| > 1 && s[1] != '%' {
      PiecesStep(s[1..]);
      assert s[1..][1..] == s[2..];
      var second := Pieces(s[2..])[0];
      assert first == [s[1]] + second;
      if |s| > 2 && s[2] != '%' {
        PiecesStep(s[2..]);
        assert second[0] == s[2];
      } else if |s| > 2 {
        PiecesStep(s[2..]);
        assert second == "" || second[0] == '%';
      }
    } else if |s| > 1 {
      PiecesStep(s[1..]);
      assert first == "" || first[0] == '%';
    }
  }

  /** `canonicalHTTPOperation`. */
  method CanonicalHttpOperation(operation: string) returns (decoded: string, stripped: string, ok: bool)
    ensures Reading(decoded, stripped, ok) == Read(operation)
  {
    decoded, ok := DecodeByPieces(operation);
    if !ok || Count(decoded, '/') != Count(operation, '/') {
      decoded, ok := operation, false;
    }
    var segments, accepted := StripSegments(Split(decoded, '/'));
    return ToLower(decoded), ToLower(Join(segments, "/")), ok && accepted;
  }

  /** The pieces between escaped stars are decoded in place and joined. */
  method DecodeByPieces(operation: string) returns (decoded: string, ok: bool)
    ensures ok <==> Decode(operation).Some?
    ensures ok ==> decoded == Decode(operation).value
  {
    var parts := Pieces(operation);
    ok := true;
    ghost var pieces := parts;
    var i := 0;
    while i < |parts|
      invariant 0 <= i <= |parts| == |pieces|
      invariant forall k :: i <= k < |parts| ==> parts[k] == pieces[k]
      invariant ok <==> forall k :: 0 <= k < i ==> Unescape(pieces[k]).Some?
      invariant ok ==> forall k :: 0 <= k < i ==> parts[k] == Unescape(pieces[k]).value
    {
      var piece := Unescape(parts[i]);
      if piece.Some? {
        parts := parts[i := piece.value];
      } else {
        parts, ok := parts[i := ""], false;
      }
      i := i + 1;
    }
    decoded := Join(parts, ESCAPED_STAR);
    JoinPieces(pieces, parts);
    PiecesDecode(operation);
  }

  /** Parameters are dropped from each segment in place. */
  method StripSegments(whole: seq<string>) returns (segments: seq<string>, ok: bool)
    ensures segments == CutAll(whole)
    ensures ok <==> forall segment <- whole :: !Refused(segment)
  {
    segments, ok := whole, true;
    var i := 0;
    while i < |segments|
      invariant 0 <= i <= |segments| == |whole|
      invariant forall k :: 0 <= k < i ==> segments[k] == CutParameters(whole[k])
      invariant forall k :: i <= k < |segments| ==> segments[k] == whole[k]
      invariant ok <==> forall k :: 0 <= k < i ==> !Refused(whole[k])
    {
      var head, cut := CutParameters(segments[i]), ';' in segments[i];
      segments := segments[i := head];
      if head == "." || head == ".." || (cut && head == "") {
        ok := false;
      }
      i := i + 1;
    }
  }

  lemma {:induction false} JoinPieces(pieces: seq<string>, parts: seq<string>)
    requires |pieces| == |parts| >= 1
    ensures (forall k :: 0 <= k < |pieces| ==> Unescape(pieces[k]).Some? && parts[k] == Unescape(pieces[k]).value) ==>
              UnescapePieces(pieces) == Some(Join(parts, ESCAPED_STAR))
    ensures (exists k :: 0 <= k < |pieces| && Unescape(pieces[k]).None?) ==> UnescapePieces(pieces).None?
  {
    if |pieces| > 1 {
      JoinPieces(pieces[1..], parts[1..]);
      assert forall k :: 1 <= k < |pieces| ==> pieces[k] == pieces[1..][k - 1];
    }
  }

  // ----- what the canonical form keeps -----

  lemma {:induction false} DecodeKeepsStars(s: string)
    ensures Decode(s).Some? ==> Count(Decode(s).value, '*') == Count(s, '*')
    decreases |s|
  {
    if s == "" {
    } else if s[0] != '%' {
      DecodeKeepsStars(s[1..]);
      if Decode(s).Some? {
        CountConcat([s[0]], Decode(s[1..]).value, '*');
        CountConcat([s[0]], s[1..], '*');
        assert s == [s[0]] + s[1..];
      }
    } else if StartsWithEscape(s) {
      DecodeKeepsStars(s[3..]);
      if Decode(s).Some? {
        var head := if StartsWithEscapedStar(s) then ESCAPED_STAR else [Escaped(s)];
        CountConcat(head, Decode(s[3..]).value, '*');
        CountConcat(s[..3], s[3..], '*');
        CountZero(head, '*');
        CountZero(s[..3], '*');
        assert s == s[..3] + s[3..];
      }
    }
  }

  /** Canonicalising never creates structure: no wildcard appears or disappears, and an accepted
      operation keeps its slashes, loses every parameter, and has no dot segment and no segment
      emptied by the loss of its parameters. */
  lemma ReadKeepsStructure(operation: string)
    ensures Count(Read(operation).decoded, '*') == Count(operation, '*')
    ensures var before, after := Split(Read(operation).decoded, '/'), Split(Read(operation).stripped, '/');
            && |after| == |before| && Count(Read(operation).decoded, '/') == Count(operation, '/')
            && ';' !in Read(operation).stripped
            && forall i :: 0 <= i < |after| ==> after[i] == CutParameters(before[i])
    ensures Read(operation).ok ==>
              var before, after := Split(Read(operation).decoded, '/'), Split(Read(operation).stripped, '/');
              forall i :: 0 <= i < |after| ==>
                && after[i] != "." && after[i] != ".." && (after[i] == "" ==> before[i] == "")
  {
    var plain, r := Plain(operation), Read(operation);
    DecodeKeepsStars(operation);
    CountLower(plain, '*');
    CountLower(plain, '/');
    var segments := Split(plain, '/');
    CutSegments(plain);
    var before, after := Split(r.decoded, '/'), Split(r.stripped, '/');
    if r.ok {
      forall i | 0 <= i < |after|
        ensures after[i] != "." && after[i] != ".." && (after[i] == "" ==> before[i] == "")
      {
        assert segments[i] in segments && !Refused(segments[i]);
        RefusedLower(segments[i]);
      }
    }
  }

  /** Lower-casing and cutting, segment by segment. */
  lemma CutSegments(plain: string)
    ensures var segments := Split(plain, '/');
            var before, after := Split(ToLower(plain), '/'), Split(ToLower(Join(CutAll(segments), "/")), '/');
            && |after| == |before| == |segments|
            && ';' !in ToLower(Join(CutAll(segments), "/"))
            && forall i :: 0 <= i < |after| ==> before[i] == ToLower(segments[i]) && after[i] == CutParameters(before[i])
  {
    var segments := Split(plain, '/');
    var heads := CutAll(segments);
    forall i | 0 <= i < |heads|
      ensures '/' !in heads[i]
    {
      assert heads[i] <= segments[i] && segments[i] in segments;
    }
    SplitJoin(heads, '/');
    SplitLower(Join(heads, "/"), '/');
    SplitLower(plain, '/');
    var after := Split(ToLower(Join(heads, "/")), '/');
    forall i | 0 <= i < |after|
      ensures after[i] == CutParameters(ToLower(segments[i]))
    {
      CutLower(segments[i]);
    }
    JoinAvoids(after, '/', ';');
  }

  /** A leading slash survives. */
  lemma FirstSlash(operation: string)
    requires operation != "" && operation[0] == '/'
    ensures Read(operation).stripped != "" && Read(operation).stripped[0] == '/'
    ensures Read(operation).decoded != "" && Read(operation).decoded[0] == '/'
  {
    var plain := Plain(operation);
    assert plain != "" && plain[0] == '/';
    var segments := Split(plain, '/');
    assert segments[0] == "" && |segments| >= 2;
    assert Join(CutAll(segments), "/") == "" + "/" + Join(CutAll(segments)[1..], "/");
  }

  lemma {:induction false} JoinAvoids(parts: seq<string>, sep: char, c: char)
    requires c != sep && forall i :: 0 <= i < |parts| ==> c !in parts[i]
    ensures c !in Join(parts, [sep])
  {
    if |parts| > 1 {
      JoinAvoids(parts[1..], sep, c);
    }
  }

  lemma {:induction false} CutLower(segment: string)
    ensures CutParameters(ToLower(segment)) == ToLower(CutParameters(segment))
  {
    if segment != "" && segment[0] != ';' {
      var head := CutParameters(segment[1..]);
      assert ToLower(segment)[1..] == ToLower(segment[1..]);
      CutLower(segment[1..]);
      LowerConcat([segment[0]], head);
      assert ToLower([segment[0]]) == [LowerChar(segment[0])];
    }
  }

  /** Whether a segment is refused does not depend on the case of its letters. */
  lemma RefusedLower(segment: string)
    ensures Refused(ToLower(segment)) == Refused(segment)
  {
    CutLower(segment);
    LowerDots(CutParameters(segment));
    CountLower(segment, ';');
    CountZero(segment, ';');
    CountZero(ToLower(segment), ';');
  }

  lemma LowerDots(s: string)
    ensures ToLower(s) == "." <==> s == "."
    ensures ToLower(s) == ".." <==> s == ".."
    ensures ToLower(s) == "" <==> s == ""
  {
    if ToLower(s) == "." {
      assert ToLower(s)[0] == '.';
      assert s == [s[0]];
    }
    if ToLower(s) == ".." {
      assert ToLower(s)[0] == '.' && ToLower(s)[1] == '.';
      assert s == [s[0], s[1]];
    }
  }

  // ----- escaping and letter case do not matter -----

  /** `escaped` is `plain` with some characters, none of them "/" or "*", written as escapes. */
  predicate EscapeOf(escaped: string, plain: string)
    decreases |plain|
  {
    if plain == "" then escaped == ""
    else
      || (plain[0] != '%' && escaped != "" && escaped[0] == plain[0] && EscapeOf(escaped[1..], plain[1..]))
      || (plain[0] !in "/*" && WrittenAs(plain[0], escaped) && EscapeOf(escaped[3..], plain[1..]))
  }

  /** The text begins with the escape of a byte: a percent sign and its two hexadecimal digits, in either case. */
  predicate WrittenAs(c: char, s: string)
  {
    && |s| >= 3 && s[0] == '%' && c as int < 256
    && LowerChar(s[1]) == HexDigit(c as int / 16) && LowerChar(s[2]) == HexDigit(c as int % 16)
  }

  lemma TwoDigits(n: nat, hi: nat, lo: nat)
    requires lo < 16
    ensures n == 16 * hi + lo <==> hi == n / 16 && lo == n % 16
  {
  }

  /** An escape decodes to the byte that its digits spell. */
  lemma EscapeSpellsByte(s: string, c: char)
    ensures WrittenAs(c, s) <==> StartsWithEscape(s) && Escaped(s) == c
  {
    if |s| >= 3 && c as int < 256 {
      HexValue(s[1], c as int / 16);
      HexValue(s[2], c as int % 16);
      if StartsWithEscape(s) {
        TwoDigits(c as int, Unhex(s[1]), Unhex(s[2]));
      }
    }
  }

  lemma DecodeFirst(escaped: string, c: char, rest: string)
    requires c !in "/*" && WrittenAs(c, escaped) && Decode(escaped[3..]) == Some(rest)
    ensures Decode(escaped) == Some([c] + rest) && Count(escaped, '/') == Count(escaped[3..], '/')
  {
    EscapeSpellsByte(escaped, c);
    assert c != '*' by {
      assert "/*"[1] == '*';
    }
    assert escaped == escaped[..3] + escaped[3..];
    CountConcat(escaped[..3], escaped[3..], '/');
    CountZero(escaped[..3], '/');
  }

  /** Decoding gives back what was escaped, whichever characters other than "/" and "*" are written as escapes; a percent
      sign must be. */
  lemma {:induction false} EscapeDecodes(escaped: string, plain: string)
    requires EscapeOf(escaped, plain)
    ensures Decode(escaped) == Some(plain)
    ensures Count(escaped, '/') == Count(plain, '/')
    decreases |plain|
  {
    if plain != "" {
      var c, rest := plain[0], plain[1..];
      assert plain == [c] + rest;
      if c != '%' && escaped != "" && escaped[0] == c && EscapeOf(escaped[1..], rest) {
        EscapeDecodes(escaped[1..], rest);
      } else {
        EscapeDecodes(escaped[3..], rest);
        DecodeFirst(escaped, c, rest);
        assert c != '/' by {
          assert "/*"[0] == '/';
        }
      }
    }
  }

  lemma {:induction false} EscapeOfSelf(plain: string)
    requires '%' !in plain
    ensures EscapeOf(plain, plain)
  {
    if plain != "" {
      EscapeOfSelf(plain[1..]);
    }
  }

  lemma SegmentAlike(s: string, t: string)
    requires ToLower(s) == ToLower(t)
    ensures ToLower(CutParameters(s)) == ToLower(CutParameters(t)) && Refused(s) == Refused(t)
  {
    CutLower(s);
    CutLower(t);
    RefusedLower(s);
    RefusedLower(t);
  }

  lemma LowerAllSame(s: seq<string>, t: seq<string>, i: nat)
    requires LowerAll(s) == LowerAll(t) && i < |s|
    ensures i < |t| && ToLower(s[i]) == ToLower(t[i])
  {
    assert |LowerAll(s)| == |LowerAll(t)| && LowerAll(s)[i] == LowerAll(t)[i];
  }

  lemma RefusedAlike(s: seq<string>, t: seq<string>)
    requires LowerAll(s) == LowerAll(t) && forall segment <- s :: !Refused(segment)
    ensures forall segment <- t :: !Refused(segment)
  {
    forall i | 0 <= i < |t| ensures !Refused(t[i]) {
      LowerAllSame(t, s, i);
      SegmentAlike(s[i], t[i]);
      assert s[i] in s;
    }
  }

  lemma CutAlike(s: seq<string>, t: seq<string>)
    requires LowerAll(s) == LowerAll(t)
    ensures ToLower(Join(CutAll(s), "/")) == ToLower(Join(CutAll(t), "/"))
  {
    assert |LowerAll(s)| == |LowerAll(t)|;
    forall i | 0 <= i < |s| ensures ToLower(CutAll(s)[i]) == ToLower(CutAll(t)[i]) {
      LowerAllSame(s, t, i);
      SegmentAlike(s[i], t[i]);
    }
    LowerJoin(CutAll(s), CutAll(t));
  }

  /** Strings that differ in letter case only are cut alike and refused alike. */
  lemma CaseReadsAlike(plain: string, other: string)
    requires ToLower(plain) == ToLower(other)
    ensures ToLower(Join(CutAll(Split(plain, '/')), "/")) == ToLower(Join(CutAll(Split(other, '/')), "/"))
    ensures (forall segment <- Split(plain, '/') :: !Refused(segment)) <==>
            (forall segment <- Split(other, '/') :: !Refused(segment))
  {
    var s, t := Split(plain, '/'), Split(other, '/');
    SplitLower(plain, '/');
    SplitLower(other, '/');
    CutAlike(s, t);
    if forall segment <- s :: !Refused(segment) {
      RefusedAlike(s, t);
    } else if forall segment <- t :: !Refused(segment) {
      RefusedAlike(t, s);
    }
  }

  // ----- which operations are accepted -----

  /** Every percent sign is the beginning of an escape. */
  ghost predicate WellEscaped(s: string)
  {
    forall i :: 0 <= i < |s| && s[i] == '%' ==> exists c :: WrittenAs(c, s[i..])
  }

  /** No slash is written as an escape. */
  ghost predicate NoEscapedSlash(s: string)
  {
    forall i :: 0 <= i < |s| && s[i] == '%' ==> !WrittenAs('/', s[i..])
  }

  lemma SpelledAt(s: string)
    ensures StartsWithEscape(s) <==> exists c :: WrittenAs(c, s)
  {
    if StartsWithEscape(s) {
      EscapeSpellsByte(s, Escaped(s));
    }
    if c :| WrittenAs(c, s) {
      EscapeSpellsByte(s, c);
    }
  }

  lemma WellEscapedTail(s: string, n: nat)
    requires n <= |s| && (forall i :: 0 <= i < n ==> s[i] == '%' ==> i == 0)
    ensures WellEscaped(s) <==> WellEscaped(s[n..]) && (n > 0 && s[0] == '%' ==> exists c :: WrittenAs(c, s))
    ensures NoEscapedSlash(s) <==> NoEscapedSlash(s[n..]) && (n > 0 && s[0] == '%' ==> !WrittenAs('/', s))
  {
    assert s[0..] == s;
    forall i | n <= i < |s| ensures s[i..] == s[n..][i - n..] {
    }
    forall i | 0 <= i < |s| - n ensures s[n..][i..] == s[i + n..] {
    }
    if WellEscaped(s[n..]) && (n > 0 && s[0] == '%' ==> exists c :: WrittenAs(c, s)) {
      forall i | 0 <= i < |s| && s[i] == '%' ensures exists c :: WrittenAs(c, s[i..]) {
        if i >= n {
          assert s[n..][i - n] == '%';
        }
      }
    }
    if NoEscapedSlash(s[n..]) && (n > 0 && s[0] == '%' ==> !WrittenAs('/', s)) {
      forall i | 0 <= i < |s| && s[i] == '%' ensures !WrittenAs('/', s[i..]) {
        if i >= n {
          assert s[n..][i - n] == '%';
        }
      }
    }
  }

  /** Decoding succeeds exactly on well-escaped text. */
  lemma {:induction false} DecodesIffWellEscaped(s: string)
    ensures Decode(s).Some? <==> WellEscaped(s)
    decreases |s|
  {
    if s != "" {
      SpelledAt(s);
      if s[0] != '%' {
        DecodesIffWellEscaped(s[1..]);
        WellEscapedTail(s, 1);
      } else if StartsWithEscape(s) {
        DecodesIffWellEscaped(s[3..]);
        WellEscapedTail(s, 3);
      } else {
        assert s[0..] == s;
      }
    }
  }

  lemma DecodedHead(s: string, n: nat, head: string)
    requires n <= |s| && Decode(s[n..]).Some?
    ensures Count(head + Decode(s[n..]).value, '/') == Count(head, '/') + Count(Decode(s[n..]).value, '/')
    ensures Count(s, '/') == Count(s[..n], '/') + Count(s[n..], '/')
  {
    CountConcat(head, Decode(s[n..]).value, '/');
    assert s == s[..n] + s[n..];
    CountConcat(s[..n], s[n..], '/');
  }

  /** Decoding only adds slashes, and it adds none exactly if none is escaped. */
  lemma {:induction false} SlashesKept(s: string)
    requires Decode(s).Some?
    ensures Count(Decode(s).value, '/') >= Count(s, '/')
    ensures Count(Decode(s).value, '/') == Count(s, '/') <==> NoEscapedSlash(s)
    decreases |s|
  {
    if s != "" {
      var n := if s[0] == '%' then 3 else 1;
      var head := if s[0] != '%' then [s[0]] else if StartsWithEscapedStar(s) then ESCAPED_STAR else [Escaped(s)];
      SlashesKept(s[n..]);
      WellEscapedTail(s, n);
      DecodedHead(s, n, head);
      HeadSlashes(s, n, head);
    }
  }

  lemma HeadSlashes(s: string, n: nat, head: string)
    requires s != "" && (s[0] == '%' ==> StartsWithEscape(s)) && n == if s[0] == '%' then 3 else 1
    requires head == if s[0] != '%' then [s[0]] else if StartsWithEscapedStar(s) then ESCAPED_STAR else [Escaped(s)]
    ensures Count(head, '/') == Count(s[..n], '/') + if s[0] == '%' && WrittenAs('/', s) then 1 else 0
  {
    EscapeSpellsByte(s, '/');
    if s[0] == '%' {
      CountZero(s[..3], '/');
      CountZero(ESCAPED_STAR, '/');
      assert head == ESCAPED_STAR || head[1..] == "";
    } else {
      assert s[..1] == [s[0]];
    }
  }

  /** A segment that is a dot or two dots, with or without parameters, or nothing but parameters. */
  predicate DotOrEmpty(segment: string)
  {
    segment == "." || segment == ".." || ";" <= segment || ".;" <= segment || "..;" <= segment
  }

  lemma RefusedIff(segment: string)
    ensures Refused(segment) <==> DotOrEmpty(segment)
  {
    var head := CutParameters(segment);
    assert head <= segment;
    if head == "" && ';' in segment {
      assert segment[0] == ';';
    }
    if head == "." && head != segment {
      assert segment[..2] == ".;";
    }
    if head == ".." && head != segment {
      assert segment[..3] == "..;";
    }
    if ";" <= segment {
      assert segment[0] == ';' && segment[..0] == "";
      CutAt(segment, 0);
    } else if ".;" <= segment {
      assert segment[0] == '.' && segment[1] == ';' && segment[..1] == ".";
      CutAt(segment, 1);
    } else if "..;" <= segment {
      assert segment[0] == '.' && segment[1] == '.' && segment[2] == ';' && segment[..2] == "..";
      CutAt(segment, 2);
    }
  }

  lemma CutAt(segment: string, n: nat)
    requires n < |segment| && segment[n] == ';' && ';' !in segment[..n]
    ensures CutParameters(segment) == segment[..n]
  {
    var head := CutParameters(segment);
    assert forall i :: 0 <= i < n ==> segment[..n][i] == segment[i];
  }

  /** Exactly these operations are accepted: every percent sign begins an escape, no slash is escaped, and no decoded
      segment is a dot segment or consists of parameters only. */
  lemma AcceptedIff(operation: string)
    ensures Read(operation).ok <==>
            && WellEscaped(operation) && NoEscapedSlash(operation)
            && forall segment <- Split(Read(operation).decoded, '/') :: !DotOrEmpty(segment)
  {
    DecodesIffWellEscaped(operation);
    if Decode(operation).Some? {
      SlashesKept(operation);
    }
    var plain := Plain(operation);
    SplitLower(plain, '/');
    SameRefusals(Split(plain, '/'));
  }

  lemma SameRefusals(segments: seq<string>)
    ensures (forall s <- segments :: !Refused(s)) <==> (forall s <- LowerAll(segments) :: !DotOrEmpty(s))
  {
    forall i | 0 <= i < |segments| ensures Refused(segments[i]) <==> DotOrEmpty(LowerAll(segments)[i]) {
      RefusedLower(segments[i]);
      RefusedIff(LowerAll(segments)[i]);
    }
    if forall s <- LowerAll(segments) :: !DotOrEmpty(s) {
      forall i | 0 <= i < |segments| ensures !Refused(segments[i]) {
        assert LowerAll(segments)[i] in LowerAll(segments);
      }
    }
    if forall s <- segments :: !Refused(s) {
      forall i | 0 <= i < |segments| ensures !DotOrEmpty(LowerAll(segments)[i]) {
        assert segments[i] in segments;
      }
    }
  }

  /** What an escaped operation reads as: the plain one in lower case. */
  lemma ReadsAsPlain(escaped: string, plain: string)
    requires EscapeOf(escaped, plain)
    ensures Read(escaped).decoded == ToLower(plain)
  {
    EscapeDecodes(escaped, plain);
  }

  /** Two spellings of one operation, by escapes and by letter case, have one canonical form. */
  lemma SpellingsReadAlike(escaped: string, plain: string, other: string)
    requires EscapeOf(escaped, plain) && '%' !in plain && '%' !in other
    requires ToLower(plain) == ToLower(other)
    ensures Read(escaped) == Read(other)
  {
    EscapeDecodes(escaped, plain);
    EscapeOfSelf(other);
    EscapeDecodes(other, other);
    CaseReadsAlike(plain, other);
  }

  lemma {:induction false} LowerJoin(s: seq<string>, t: seq<string>)
    requires |s| == |t| && forall i :: 0 <= i < |s| ==> ToLower(s[i]) == ToLower(t[i])
    ensures ToLower(Join(s, "/")) == ToLower(Join(t, "/"))
  {
    if |s| > 1 {
      LowerJoin(s[1..], t[1..]);
      LowerConcat(s[0] + "/", Join(s[1..], "/"));
      LowerConcat(t[0] + "/", Join(t[1..], "/"));
      LowerConcat(s[0], "/");
      LowerConcat(t[0], "/");
    }
  }
}
