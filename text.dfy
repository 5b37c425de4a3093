/**
 * The handful of Python string and POSIX path operations that the wheel
 * uploader relies on: `str.startswith`, `str.endswith`, the `in` substring
 * test, `str.split` on a one-character separator (with `str.join` as its
 * inverse), `os.path.splitext` and two-argument `os.path.join`.
 */
module PyText {

  /** `s.startswith(p)` */
  predicate StartsWith(s: string, p: string) {
    |p| <= |s| && s[..|p|] == p
  }

  /** `s.endswith(c)` for a one-character suffix */
  predicate EndsWith(s: string, c: char) {
    |s| > 0 && s[|s| - 1] == c
  }

  /** `needle` occurs in `hay` starting at index `i` */
  ghost predicate OccursAt(hay: string, needle: string, i: int) {
    0 <= i && i + |needle| <= |hay| && hay[i..i + |needle|] == needle
  }

  /** Python's substring test `needle in hay` (the empty string occurs everywhere) */
  predicate Contains(hay: string, needle: string)
    decreases |hay|
  {
    StartsWith(hay, needle) || (|hay| > 0 && Contains(hay[1..], needle))
  }

  /** The substring test agrees with its positional definition. */
  lemma {:induction false} ContainsIffOccurs(hay: string, needle: string)
    ensures Contains(hay, needle) <==> exists i :: OccursAt(hay, needle, i)
    decreases |hay|
  {
    if |hay| > 0 {
      ContainsIffOccurs(hay[1..], needle);
    }
    if StartsWith(hay, needle) {
      assert OccursAt(hay, needle, 0);
    } else if |hay| > 0 && Contains(hay[1..], needle) {
      var i :| OccursAt(hay[1..], needle, i);
      assert hay[1..][i..i + |needle|] == hay[i + 1..i + 1 + |needle|];
      assert OccursAt(hay, needle, i + 1);
    }
    forall i | OccursAt(hay, needle, i)
      ensures Contains(hay, needle)
    {
      if 0 < i {
        assert hay[1..][i - 1..i - 1 + |needle|] == hay[i..i + |needle|];
        assert OccursAt(hay[1..], needle, i - 1);
      }
    }
  }

  /** Number of occurrences of `c` in `s` */
  function Count(s: string, c: char): nat {
    if s == [] then 0 else (if s[0] == c then 1 else 0) + Count(s[1..], c)
  }

  lemma {:induction false} CountAppend(a: string, b: string, c: char)
    ensures Count(a + b, c) == Count(a, c) + Count(b, c)
    decreases |a|
  {
    if a == [] {
      assert a + b == b;
    } else {
      assert (a + b)[1..] == a[1..] + b;
      CountAppend(a[1..], b, c);
    }
  }

  lemma {:induction false} CountAbsent(s: string, c: char)
    requires c !in s
    ensures Count(s, c) == 0
    decreases |s|
  {
    if s != [] {
      assert s[0] in s;
      forall x | x in s[1..] ensures x in s { }
      CountAbsent(s[1..], c);
    }
  }

  /**
   * `s.split(sep)` for a one-character separator: the pieces between the
   * separators, empty pieces included, so there is always one more piece
   * than there are separators.
   */
  function Split(s: string, sep: char): (r: seq<string>)
    ensures |r| == Count(s, sep) + 1
    decreases |s|
  {
    if s == [] then [[]]
    else
      var rest := Split(s[1..], sep);
      if s[0] == sep then [[]] + rest
      else [[s[0]] + rest[0]] + rest[1..]
  }

  /** `sep.join(parts)` */
  function Join(parts: seq<string>, sep: char): string
    requires |parts| > 0
  {
    if |parts| == 1 then parts[0] else parts[0] + [sep] + Join(parts[1..], sep)
  }

  /** No piece of a split holds the separator. */
  lemma {:induction false} SplitPiecesFree(s: string, sep: char)
    ensures forall k :: 0 <= k < |Split(s, sep)| ==> sep !in Split(s, sep)[k]
    decreases |s|
  {
    if s != [] {
      SplitPiecesFree(s[1..], sep);
    }
  }

  /** Joining the pieces of a split gives back the original string. */
  lemma {:induction false} JoinSplit(s: string, sep: char)
    ensures Join(Split(s, sep), sep) == s
    decreases |s|
  {
    if s != [] {
      var rest := Split(s[1..], sep);
      JoinSplit(s[1..], sep);
      if s[0] == sep {
        assert Split(s, sep)[1..] == rest;
      } else if |rest| > 1 {
        var r := Split(s, sep);
        assert r[1..] == rest[1..];
        assert Join(rest, sep) == rest[0] + [sep] + Join(rest[1..], sep);
        assert s == [s[0]] + s[1..];
      }
    }
  }

  /** Splitting a join of separator-free pieces gives back the pieces. */
  lemma {:induction false} SplitJoin(parts: seq<string>, sep: char)
    requires |parts| > 0
    requires forall k :: 0 <= k < |parts| ==> sep !in parts[k]
    ensures Split(Join(parts, sep), sep) == parts
    decreases |parts|, |parts[0]|
  {
    var p := parts[0];
    if p == [] {
      if |parts| > 1 {
        SplitJoin(parts[1..], sep);
        JoinEmptyHead(parts, sep);
        SplitAtSep(Join(parts[1..], sep), sep);
        assert [p] + parts[1..] == parts;
      }
    } else {
      assert p[0] in p;
      forall x | x in p[1..] ensures x in p { }
      var shorter := [p[1..]] + parts[1..];
      assert shorter[1..] == parts[1..];
      SplitJoin(shorter, sep);
      JoinCharHead(parts, sep);
      SplitAtChar(p[0], Join(shorter, sep), sep);
      assert [p[0]] + p[1..] == p;
      assert [p] + parts[1..] == parts;
    }
  }

  lemma SplitAtSep(s: string, sep: char)
    ensures Split([sep] + s, sep) == [[]] + Split(s, sep)
  {
    assert ([sep] + s)[1..] == s;
  }

  lemma SplitAtChar(c: char, s: string, sep: char)
    requires c != sep
    ensures var rest := Split(s, sep);
            Split([c] + s, sep) == [[c] + rest[0]] + rest[1..]
  {
    assert ([c] + s)[1..] == s;
  }

  lemma JoinEmptyHead(parts: seq<string>, sep: char)
    requires |parts| > 1 && parts[0] == []
    ensures Join(parts, sep) == [sep] + Join(parts[1..], sep)
  {
  }

  lemma JoinCharHead(parts: seq<string>, sep: char)
    requires |parts| > 0 && parts[0] != []
    ensures var shorter := [parts[0][1..]] + parts[1..];
            Join(parts, sep) == [parts[0][0]] + Join(shorter, sep)
  {
    var shorter := [parts[0][1..]] + parts[1..];
    assert shorter[1..] == parts[1..];
    assert parts[0] == [parts[0][0]] + parts[0][1..];
  }

  /** Python's `s.rfind(c)`: the last index of `c`, or -1 when `c` is absent */
  function RFind(s: string, c: char): (r: int)
    ensures -1 <= r < |s|
    ensures 0 <= r ==> s[r] == c
    ensures forall j :: r < j < |s| ==> s[j] != c
    decreases |s|
  {
    if s == [] then -1
    else if s[|s| - 1] == c then |s| - 1
    else RFind(s[..|s| - 1], c)
  }

  /**
   * POSIX `os.path.splitext(p)`: the extension starts at the last `.`,
   * provided that dot lies in the last path component and is not part of a
   * run of leading dots of that component; otherwise the extension is empty.
   */
  function SplitExt(p: string): (r: (string, string))
  {
    var sep := RFind(p, '/');
    var dot := RFind(p, '.');
    if dot > sep && exists k | sep + 1 <= k < dot :: p[k] != '.' then (p[..dot], p[dot..])
    else (p, "")
  }

  /** The two halves of `splitext` put back together give the path, and a
    * non-empty extension is one `.` followed by neither `.` nor `/`. */
  lemma SplitExtParts(p: string)
    ensures SplitExt(p).0 + SplitExt(p).1 == p
    ensures var ext := SplitExt(p).1;
            ext == [] || (ext[0] == '.' && '.' !in ext[1..] && '/' !in ext[1..])
  {
    var ext := SplitExt(p).1;
    if ext != [] {
      var dot := RFind(p, '.');
      var sep := RFind(p, '/');
      assert ext == p[dot..];
      forall x | x in ext[1..] ensures x != '.' && x != '/' {
        var j :| 0 <= j < |ext[1..]| && ext[1..][j] == x;
        assert x == p[dot + 1 + j];
      }
    }
  }

  /** A name `stem + ext`, where `ext` is one `.` plus a tail free of `.` and `/`
    * and the stem ends in an ordinary character, has extension `ext`. */
  lemma SplitExtOfName(stem: string, ext: string)
    requires |stem| > 0 && stem[|stem| - 1] != '.' && stem[|stem| - 1] != '/'
    requires |ext| > 0 && ext[0] == '.' && '.' !in ext[1..] && '/' !in ext[1..]
    ensures SplitExt(stem + ext) == (stem, ext)
  {
    var p := stem + ext;
    forall j | |stem| < j < |p|
      ensures p[j] != '.' && p[j] != '/'
    {
      assert p[j] == ext[1..][j - |stem| - 1];
    }
    assert p[|stem|] == '.' && p[|stem| - 1] == stem[|stem| - 1];
    var dot := RFind(p, '.');
    var sep := RFind(p, '/');
    assert dot == |stem|;
    assert sep < |stem| - 1;
    assert p[..dot] == stem && p[dot..] == ext;
  }

  /**
   * POSIX `os.path.join(a, b)` for two components: an absolute `b` replaces
   * `a`; otherwise `b` is appended to `a`, with a `/` in between unless `a`
   * is empty or already ends with one.
   */
  function JoinPath(a: string, b: string): string {
    if StartsWith(b, "/") then b
    else if a == [] || EndsWith(a, '/') then a + b
    else a + "/" + b
  }

  /** A joined path ends with the joined name and, unless that name is
    * absolute, starts with the directory. */
  lemma JoinPathParts(a: string, b: string)
    ensures var r := JoinPath(a, b);
            |b| <= |r| && r[|r| - |b|..] == b &&
            (StartsWith(b, "/") || StartsWith(r, a))
  {
  }
}
