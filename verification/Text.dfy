/** The string operations of Go's `strings` package that the modelled code relies on. */
module Text {

  type Byte = x: int | 0 <= x < 256
  type Bytes = seq<Byte>

  datatype Option<+T> = None | Some(value: T)

  /** `strings.Split` with a one-character separator: never empty, pieces hold no separator. */
  function Split(s: string, sep: char): (parts: seq<string>)
    ensures |parts| >= 1
    ensures forall p <- parts :: sep !in p
    ensures Join(parts, [sep]) == s
    ensures |parts| == 1 + Count(s, sep)
  {
    if s == "" then [""]
    else
      var rest := Split(s[1..], sep);
      if s[0] == sep then
        JoinEmpty(rest, [sep]);
        [""] + rest
      else
        JoinLonger([s[0]], rest, [sep]);
        FreeCons(s[0], rest, sep);
        [[s[0]] + rest[0]] + rest[1..]
  }

  lemma FreeCons(c: char, rest: seq<string>, sep: char)
    requires |rest| >= 1 && c != sep && forall q <- rest :: sep !in q
    ensures forall q <- [[c] + rest[0]] + rest[1..] :: sep !in q
  {
    forall q <- [[c] + rest[0]] + rest[1..] ensures sep !in q {
      if q in rest[1..] {
        assert q in rest;
      } else {
        assert rest[0] in rest;
      }
    }
  }

  lemma JoinCons(p: string, rest: seq<string>, sep: string)
    requires |rest| >= 1
    ensures Join([p] + rest, sep) == p + sep + Join(rest, sep)
  {
    assert ([p] + rest)[1..] == rest;
  }

  lemma JoinEmpty(rest: seq<string>, sep: string)
    requires |rest| >= 1
    ensures Join([""] + rest, sep) == sep + Join(rest, sep)
  {
    JoinCons("", rest, sep);
    assert "" + sep == sep;
  }

  lemma JoinLonger(p: string, rest: seq<string>, sep: string)
    requires |rest| >= 1
    ensures Join([p + rest[0]] + rest[1..], sep) == p + Join(rest, sep)
  {
    var tail := rest[1..];
    if tail == [] {
      assert [p + rest[0]] + tail == [p + rest[0]];
    } else {
      JoinCons(p + rest[0], tail, sep);
      JoinCons(rest[0], tail, sep);
      assert [rest[0]] + tail == rest;
      assert p + rest[0] + sep + Join(tail, sep) == p + (rest[0] + sep + Join(tail, sep));
    }
  }

  /** `strings.Join`. */
  function Join(parts: seq<string>, sep: string): (s: string)
  {
    if parts == [] then ""
    else if |parts| == 1 then parts[0]
    else parts[0] + sep + Join(parts[1..], sep)
  }

  /** `strings.Count` of a one-character string. */
  function Count(s: string, c: char): (n: nat)
  {
    if s == "" then 0 else (if s[0] == c then 1 else 0) + Count(s[1..], c)
  }

  lemma {:induction false} CountConcat(s: string, t: string, c: char)
    ensures Count(s + t, c) == Count(s, c) + Count(t, c)
  {
    if s == "" {
      assert s + t == t;
    } else {
      assert (s + t)[1..] == s[1..] + t;
      CountConcat(s[1..], t, c);
    }
  }

  lemma {:induction false} CountZero(s: string, c: char)
    ensures Count(s, c) == 0 <==> c !in s
  {
    if s != "" {
      CountZero(s[1..], c);
      assert s == [s[0]] + s[1..];
    }
  }

  /** Splitting a join of separator-free pieces gives the pieces back. */
  lemma {:induction false} SplitJoin(parts: seq<string>, sep: char)
    requires |parts| >= 1
    requires forall p <- parts :: sep !in p
    ensures Split(Join(parts, [sep]), sep) == parts
  {
    if |parts| == 1 {
      SplitNone(parts[0], sep);
    } else {
      var rest := Join(parts[1..], [sep]);
      SplitJoin(parts[1..], sep);
      SplitFirst(parts[0], rest, sep);
      assert Join(parts, [sep]) == parts[0] + [sep] + rest;
    }
  }

  lemma {:induction false} SplitNone(p: string, sep: char)
    requires sep !in p
    ensures Split(p, sep) == [p]
  {
    if p != "" {
      SplitNone(p[1..], sep);
      assert p == [p[0]] + p[1..];
    }
  }

  lemma SplitFirst(p: string, rest: string, sep: char)
    requires sep !in p
    ensures Split(p + [sep] + rest, sep) == [p] + Split(rest, sep)
  {
    var s := [sep] + rest;
    assert s[1..] == rest;
    SplitPiece(p, s, sep);
    assert p + s == p + [sep] + rest && p + "" == p;
  }

  lemma ConsConcat(p: string, s: string)
    requires p != ""
    ensures p + s == [p[0]] + (p[1..] + s)
    ensures forall c :: c in p <==> c == p[0] || c in p[1..]
  {
    assert p == [p[0]] + p[1..];
  }

  /** What a prefix makes of the first piece. */
  function Lengthened(p: string, parts: seq<string>): (longer: seq<string>)
    requires |parts| >= 1
    ensures |longer| >= 1
  {
    [p + parts[0]] + parts[1..]
  }

  lemma LengthenedTwice(p: string, parts: seq<string>)
    requires |parts| >= 1
    ensures Lengthened("", parts) == parts
    ensures p != "" ==> Lengthened([p[0]], Lengthened(p[1..], parts)) == Lengthened(p, parts)
  {
    assert "" + parts[0] == parts[0] && [parts[0]] + parts[1..] == parts;
    if p != "" {
      ConsConcat(p, parts[0]);
      assert Lengthened(p[1..], parts)[1..] == parts[1..];
    }
  }

  /** A separator-free prefix only lengthens the first piece. */
  lemma {:induction false} SplitPiece(p: string, s: string, sep: char)
    requires sep !in p
    ensures Split(p + s, sep) == Lengthened(p, Split(s, sep))
  {
    LengthenedTwice(p, Split(s, sep));
    if p == "" {
      assert p + s == s;
    } else {
      ConsConcat(p, s);
      SplitPiece(p[1..], s, sep);
      SplitStep(p[0], p[1..] + s, sep);
    }
  }

  /** The ASCII part of `unicode.ToLower`. */
  function LowerChar(c: char): (d: char)
    ensures !('A' <= d <= 'Z')
  {
    if 'A' <= c <= 'Z' then ((c as int) + 32) as char else c
  }

  /** Letters by their place in the alphabet; everything else stays. */
  lemma LowerLetter(i: nat, c: char)
    requires i < 26
    ensures LowerChar("ABCDEFGHIJKLMNOPQRSTUVWXYZ"[i]) == "abcdefghijklmnopqrstuvwxyz"[i]
    ensures c < 'A' || 'Z' < c ==> LowerChar(c) == c
  {
  }

  function ToLower(s: string): (t: string)
    ensures |t| == |s|
    ensures forall i :: 0 <= i < |s| ==> t[i] == LowerChar(s[i])
  {
    seq(|s|, i requires 0 <= i < |s| => LowerChar(s[i]))
  }

  /** Lower-casing moves no character that is not an upper-case letter. */
  lemma {:induction false} CountLower(s: string, c: char)
    requires !('A' <= c <= 'Z') && !('a' <= c <= 'z')
    ensures Count(ToLower(s), c) == Count(s, c)
  {
    if s != "" {
      assert ToLower(s)[1..] == ToLower(s[1..]);
      CountLower(s[1..], c);
    }
  }

  lemma LowerConcat(s: string, t: string)
    ensures ToLower(s + t) == ToLower(s) + ToLower(t)
  {
  }

  /** How splitting goes on from the first character. */
  lemma SplitStep(c: char, s: string, sep: char)
    ensures Split([c] + s, sep) ==
            if c == sep then [""] + Split(s, sep) else Lengthened([c], Split(s, sep))
  {
    assert ([c] + s)[1..] == s;
  }

  function LowerAll(parts: seq<string>): (lower: seq<string>)
    ensures |lower| == |parts|
  {
    seq(|parts|, i requires 0 <= i < |parts| => ToLower(parts[i]))
  }

  lemma LowerAllCons(p: string, parts: seq<string>)
    ensures LowerAll([p] + parts) == [ToLower(p)] + LowerAll(parts)
  {
  }

  /** Lower-casing commutes with splitting on a character that has no case. */
  lemma {:induction false} SplitLower(s: string, sep: char)
    requires !('A' <= sep <= 'Z') && !('a' <= sep <= 'z')
    ensures Split(ToLower(s), sep) == LowerAll(Split(s, sep))
  {
    if s != "" {
      var c, rest := s[0], s[1..];
      SplitLower(rest, sep);
      assert s == [c] + rest;
      LowerConcat([c], rest);
      SplitStep(c, rest, sep);
      SplitStep(LowerChar(c), ToLower(rest), sep);
      var parts := Split(rest, sep);
      assert parts == [parts[0]] + parts[1..];
      LowerAllCons(parts[0], parts[1..]);
      LowerAllCons("", parts);
      LowerAllCons([c] + parts[0], parts[1..]);
      LowerConcat([c], parts[0]);
    }
  }

  lemma TakeAll<T>(s: seq<T>)
    ensures s[..0] == [] && s[..|s|] == s
  {
  }

  lemma TakeNext<T>(s: seq<T>, i: nat)
    requires i < |s|
    ensures s[..i + 1] == s[..i] + [s[i]]
  {
  }

  lemma DropNext<T>(s: seq<T>, i: nat)
    requires i < |s|
    ensures s[i..][0] == s[i] && s[i..][1..] == s[i + 1..]
  {
  }

  lemma ConsSnoc<T>(x: T, s: seq<T>)
    requires s != []
    ensures s == s[..|s| - 1] + [s[|s| - 1]]
    ensures [x] + s == ([x] + s[..|s| - 1]) + [s[|s| - 1]]
  {
  }

  lemma SnocFront<T>(s: seq<T>, x: T)
    ensures (s + [x])[..|s|] == s && (s + [x])[|s|] == x
  {
  }
}
