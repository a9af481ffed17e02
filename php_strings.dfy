/**
 * The PHP string functions the walker relies on: `explode` (to split a
 * time token), `trim` (for comments) and `ltrim` (for tags), on strings
 * modelled as sequences of characters.
 */
module PhpStrings {

  /** The characters PHP's `trim` removes when given no character list:
      space, tab, line feed, carriage return, NUL and vertical tab. */
  const Whitespace: set<char> := {' ', '\t', '\n', '\r', '\0', '\U{B}'}

  /** PHP `ltrim($s, $chars)`: drops every leading character that is in `chars`. */
  function LTrim(s: string, chars: set<char>): (r: string)
    ensures |r| <= |s| && r == s[|s| - |r|..]
    ensures r == [] || r[0] !in chars
    decreases |s|
  {
    if s != [] && s[0] in chars then LTrim(s[1..], chars) else s
  }

  /** `ltrim` drops nothing but characters of `chars`. */
  lemma {:induction false} LTrimDropsOnly(s: string, chars: set<char>)
    ensures forall i :: 0 <= i < |s| - |LTrim(s, chars)| ==> s[i] in chars
    decreases |s|
  {
    if s != [] && s[0] in chars {
      LTrimDropsOnly(s[1..], chars);
    }
  }

  /** PHP `rtrim($s, $chars)`: drops every trailing character that is in `chars`. */
  function RTrim(s: string, chars: set<char>): (r: string)
    ensures |r| <= |s| && r == s[..|r|]
    ensures r == [] || r[|r| - 1] !in chars
    decreases |s|
  {
    if s != [] && s[|s| - 1] in chars then RTrim(s[..|s| - 1], chars) else s
  }

  /** `rtrim` drops nothing but characters of `chars`. */
  lemma {:induction false} RTrimDropsOnly(s: string, chars: set<char>)
    ensures forall i :: |RTrim(s, chars)| <= i < |s| ==> s[i] in chars
    decreases |s|
  {
    if s != [] && s[|s| - 1] in chars {
      RTrimDropsOnly(s[..|s| - 1], chars);
    }
  }

  /** PHP `trim($s, $chars)`: the result neither begins nor ends with a character of `chars`. */
  function Trim(s: string, chars: set<char>): (r: string)
    ensures r == [] || (r[0] !in chars && r[|r| - 1] !in chars)
  {
    RTrim(LTrim(s, chars), chars)
  }

  /** A run of `chars` in front of a string that does not start with one is dropped entirely. */
  lemma {:induction false} LTrimDrops(p: string, t: string, chars: set<char>)
    requires forall i :: 0 <= i < |p| ==> p[i] in chars
    requires t == [] || t[0] !in chars
    ensures LTrim(p + t, chars) == t
    decreases |p|
  {
    if p == [] {
      assert p + t == t;
    } else {
      assert (p + t)[1..] == p[1..] + t;
      LTrimDrops(p[1..], t, chars);
    }
  }

  /** A run of `chars` after a string that does not end with one is dropped entirely. */
  lemma {:induction false} RTrimDrops(m: string, q: string, chars: set<char>)
    requires forall i :: 0 <= i < |q| ==> q[i] in chars
    requires m == [] || m[|m| - 1] !in chars
    ensures RTrim(m + q, chars) == m
    decreases |q|
  {
    if q == [] {
      assert m + q == m;
    } else {
      assert (m + q)[..|m + q| - 1] == m + q[..|q| - 1];
      RTrimDrops(m, q[..|q| - 1], chars);
    }
  }

  /** `trim` gives back exactly the core of `p + m + q` when `p` and `q` are made of
      `chars` and `m` neither begins nor ends with one of them. */
  lemma TrimExact(p: string, m: string, q: string, chars: set<char>)
    requires forall i :: 0 <= i < |p| ==> p[i] in chars
    requires forall i :: 0 <= i < |q| ==> q[i] in chars
    requires m == [] || (m[0] !in chars && m[|m| - 1] !in chars)
    ensures Trim(p + m + q, chars) == m
  {
    if m == [] {
      assert p + m + q == (p + q) + [];
      LTrimDrops(p + q, [], chars);
    } else {
      assert p + m + q == p + (m + q);
      LTrimDrops(p, m + q, chars);
      RTrimDrops(m, q, chars);
    }
  }

  /** Trimming twice is trimming once. */
  lemma TrimIdempotent(s: string, chars: set<char>)
    ensures Trim(Trim(s, chars), chars) == Trim(s, chars)
  {
    var m := Trim(s, chars);
    assert [] + m + [] == m;
    TrimExact([], m, [], chars);
  }

  /** Stripping leading characters twice is stripping them once. */
  lemma LTrimIdempotent(s: string, chars: set<char>)
    ensures LTrim(LTrim(s, chars), chars) == LTrim(s, chars)
  {
    var t := LTrim(s, chars);
    assert [] + t == t;
    LTrimDrops([], t, chars);
  }

  /** PHP `explode($d, $s)` for a one-character delimiter: the pieces between
      delimiters, in order; there is always at least one piece, and exactly one
      when the delimiter does not occur. */
  function Explode(s: string, d: char): (parts: seq<string>)
    ensures |parts| >= 1
    ensures |parts| == 1 <==> d !in s
    decreases |s|
  {
    if s == [] then [[]]
    else
      var rest := Explode(s[1..], d);
      if s[0] == d then [[]] + rest
      else [[s[0]] + rest[0]] + rest[1..]
  }

  /** No piece of an `explode` contains the delimiter. */
  lemma {:induction false} ExplodePieces(s: string, d: char)
    ensures forall k :: 0 <= k < |Explode(s, d)| ==> d !in Explode(s, d)[k]
    decreases |s|
  {
    if s != [] {
      var rest := Explode(s[1..], d);
      ExplodePieces(s[1..], d);
    }
  }

  /** PHP `implode($d, $parts)`: the pieces joined by the delimiter. */
  function Implode(parts: seq<string>, d: char): string
    decreases |parts|
  {
    if parts == [] then []
    else if |parts| == 1 then parts[0]
    else parts[0] + [d] + Implode(parts[1..], d)
  }

  /** Exploding a string whose head has no delimiter extends the first piece with that head. */
  lemma {:induction false} ExplodePrefix(h: string, t: string, d: char)
    requires d !in h
    ensures Explode(h + t, d) == [h + Explode(t, d)[0]] + Explode(t, d)[1..]
    decreases |h|
  {
    if h == [] {
      assert h + t == t;
      assert h + Explode(t, d)[0] == Explode(t, d)[0];
      assert Explode(t, d) == [Explode(t, d)[0]] + Explode(t, d)[1..];
    } else {
      assert (h + t)[1..] == h[1..] + t;
      ExplodePrefix(h[1..], t, d);
      assert [h[0]] + (h[1..] + Explode(t, d)[0]) == h + Explode(t, d)[0];
    }
  }

  /** The first piece is everything before the first delimiter; the rest is the explode of what follows it. */
  lemma ExplodeAtFirst(h: string, t: string, d: char)
    requires d !in h
    ensures Explode(h + [d] + t, d) == [h] + Explode(t, d)
  {
    assert h + [d] + t == h + ([d] + t);
    ExplodePrefix(h, [d] + t, d);
    assert ([d] + t)[1..] == t;
    assert h + [] == h;
  }

  /** A string without the delimiter explodes to itself alone. */
  lemma ExplodeWhole(h: string, d: char)
    requires d !in h
    ensures Explode(h, d) == [h]
  {
    assert h + [] == h;
    ExplodePrefix(h, [], d);
  }

  /** Joining the pieces gives back the exploded string. */
  lemma {:induction false} ImplodeExplode(s: string, d: char)
    ensures Implode(Explode(s, d), d) == s
    decreases |s|
  {
    if s != [] {
      var rest := Explode(s[1..], d);
      ImplodeExplode(s[1..], d);
      if s[0] == d {
        assert ([[]] + rest)[1..] == rest;
        assert s == [d] + s[1..];
      } else if |rest| == 1 {
        assert s == [s[0]] + s[1..];
      } else {
        var parts := [[s[0]] + rest[0]] + rest[1..];
        assert parts[1..] == rest[1..];
        assert Implode(rest, d) == rest[0] + [d] + Implode(rest[1..], d);
        assert s == [s[0]] + s[1..];
      }
    }
  }

  /** Exploding joined pieces that contain no delimiter gives back the pieces. */
  lemma {:induction false} ExplodeImplode(parts: seq<string>, d: char)
    requires |parts| >= 1
    requires forall k :: 0 <= k < |parts| ==> d !in parts[k]
    ensures Explode(Implode(parts, d), d) == parts
    decreases |parts|
  {
    if |parts| == 1 {
      ExplodeWhole(parts[0], d);
    } else {
      ExplodeImplode(parts[1..], d);
      ExplodeAtFirst(parts[0], Implode(parts[1..], d), d);
      assert parts == [parts[0]] + parts[1..];
    }
  }
}
