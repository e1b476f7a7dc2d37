/**
 * The string operations the record store relies on: Python's `str.strip()`
 * with no argument, the whitespace `int()` and `float()` skip around a
 * number, and `str.split(sep)` with a one-character separator,
 * together with the join that inverts the split.
 */
module Text {

  /** The characters `str.isspace()` accepts: ASCII whitespace, the
      information separators U+001C-U+001F, NEL, NO-BREAK SPACE, OGHAM SPACE
      MARK, the spaces U+2000-U+200A, the line and paragraph separators,
      NARROW NO-BREAK SPACE, MEDIUM MATHEMATICAL SPACE and IDEOGRAPHIC SPACE. */
  predicate IsSpace(c: char) {
    var n := c as int;
    n == 32 || 9 <= n <= 13 || 28 <= n <= 31 || n == 0x85 || n == 0xA0 || n == 0x1680 ||
    0x2000 <= n <= 0x200A || n == 0x2028 || n == 0x2029 || n == 0x202F || n == 0x205F || n == 0x3000
  }

  /** Which surrounding characters are dropped: `str.strip()` drops every
      `str.isspace()` character, while `int()` and `float()` skip the same
      set except the information separators U+001C-U+001F, which they reject. */
  datatype SpaceKind = AnySpace | NumberSpace

  predicate Blank(k: SpaceKind, c: char) {
    IsSpace(c) && (k == AnySpace || !(28 <= c as int <= 31))
  }

  /** Drops leading blanks. */
  function TrimStart(s: string, k: SpaceKind): string
    decreases |s|
  {
    if |s| > 0 && Blank(k, s[0]) then TrimStart(s[1..], k) else s
  }

  /** Drops trailing blanks. */
  function TrimEnd(s: string, k: SpaceKind): string
    decreases |s|
  {
    if |s| > 0 && Blank(k, s[|s| - 1]) then TrimEnd(s[..|s| - 1], k) else s
  }

  /** Drops surrounding blanks: `s.strip()` for `AnySpace`, the whitespace
      `int(s)` and `float(s)` skip for `NumberSpace`. What is left neither
      starts nor ends with a blank, and a string that neither starts nor ends
      with one is returned unchanged. */
  function Strip(s: string, k: SpaceKind): (r: string)
    ensures |r| > 0 ==> !Blank(k, r[0]) && !Blank(k, r[|r| - 1])
    ensures s == [] || (!Blank(k, s[0]) && !Blank(k, s[|s| - 1])) ==> r == s
  {
    TrimStartSuffix(s, k);
    TrimEndPrefix(TrimStart(s, k), k);
    TrimEnd(TrimStart(s, k), k)
  }

  /** `TrimStart` keeps a suffix that does not start with a blank and drops
      only blanks. */
  lemma {:induction false} TrimStartSuffix(s: string, k: SpaceKind)
    ensures var r := TrimStart(s, k);
      |r| <= |s| && r == s[|s| - |r|..] && forall i :: 0 <= i < |s| - |r| ==> Blank(k, s[i])
    ensures var r := TrimStart(s, k); |r| > 0 ==> !Blank(k, r[0])
    decreases |s|
  {
    if |s| > 0 && Blank(k, s[0]) {
      TrimStartSuffix(s[1..], k);
    }
  }

  /** `TrimEnd` keeps a prefix that does not end with a blank and drops only
      blanks. */
  lemma {:induction false} TrimEndPrefix(s: string, k: SpaceKind)
    ensures var r := TrimEnd(s, k);
      |r| <= |s| && r == s[..|r|] && forall i :: |r| <= i < |s| ==> Blank(k, s[i])
    ensures var r := TrimEnd(s, k); |r| > 0 ==> !Blank(k, r[|r| - 1])
    decreases |s|
  {
    if |s| > 0 && Blank(k, s[|s| - 1]) {
      TrimEndPrefix(s[..|s| - 1], k);
    }
  }

  /** Every character `Strip` removes is a blank. */
  lemma StripKeeps(s: string, k: SpaceKind, c: char)
    requires c in s && !Blank(k, c)
    ensures c in Strip(s, k)
  {
    var t := TrimStart(s, k);
    TrimStartSuffix(s, k);
    TrimEndPrefix(t, k);
    var i :| 0 <= i < |s| && s[i] == c;
    var n := i - (|s| - |t|);
    assert 0 <= n < |t| && t[n] == c;
    assert TrimEnd(t, k)[n] == c;
  }

  /** `s.split(sep)`: the pieces between separators, empty pieces included;
      there is always at least one piece and no piece holds the separator. */
  function Split(s: string, sep: char): (parts: seq<string>)
    ensures |parts| >= 1
    ensures forall i :: 0 <= i < |parts| ==> sep !in parts[i]
    decreases |s|
  {
    if s == [] then [[]]
    else
      var rest := Split(s[1..], sep);
      if s[0] == sep then [[]] + rest
      else [[s[0]] + rest[0]] + rest[1..]
  }

  /** `sep.join(parts)`. */
  function Join(parts: seq<string>, sep: char): string
    requires |parts| >= 1
  {
    if |parts| == 1 then parts[0] else parts[0] + [sep] + Join(parts[1..], sep)
  }

  /** Joining the pieces of a split gives back the original string. */
  lemma {:induction false} JoinSplit(s: string, sep: char)
    ensures Join(Split(s, sep), sep) == s
    decreases |s|
  {
    if s != [] {
      JoinSplit(s[1..], sep);
      var rest := Split(s[1..], sep);
      if s[0] == sep {
        assert Split(s, sep) == [[]] + rest;
        assert ([[]] + rest)[1..] == rest;
      } else {
        var parts := Split(s, sep);
        assert parts == [[s[0]] + rest[0]] + rest[1..];
        if |rest| == 1 {
          assert parts == [[s[0]] + rest[0]];
        } else {
          assert parts[1..] == rest[1..];
          assert Join(rest, sep) == rest[0] + [sep] + Join(rest[1..], sep);
        }
      }
    }
  }

  /** A string without the separator splits into itself alone. */
  lemma {:induction false} SplitWithoutSeparator(p: string, sep: char)
    requires sep !in p
    ensures Split(p, sep) == [p]
    decreases |p|
  {
    if p != [] {
      SplitWithoutSeparator(p[1..], sep);
      assert [p[0]] + p[1..] == p;
    }
  }

  /** A separator-free piece followed by the separator splits off as one piece. */
  lemma {:induction false} SplitAfterPiece(p: string, sep: char, t: string)
    requires sep !in p
    ensures Split(p + [sep] + t, sep) == [p] + Split(t, sep)
    decreases |p|
  {
    var s := p + [sep] + t;
    if p == [] {
      assert s[1..] == t;
    } else {
      assert s[1..] == p[1..] + [sep] + t;
      SplitAfterPiece(p[1..], sep, t);
      assert [p[0]] + p[1..] == p;
    }
  }

  /** Splitting a join of separator-free pieces gives back the pieces. */
  lemma {:induction false} SplitJoin(parts: seq<string>, sep: char)
    requires |parts| >= 1
    requires forall i :: 0 <= i < |parts| ==> sep !in parts[i]
    ensures Split(Join(parts, sep), sep) == parts
    decreases |parts|
  {
    if |parts| == 1 {
      SplitWithoutSeparator(parts[0], sep);
    } else {
      SplitJoin(parts[1..], sep);
      SplitAfterPiece(parts[0], sep, Join(parts[1..], sep));
      assert [parts[0]] + parts[1..] == parts;
    }
  }

  /** A character found in no piece and different from the separator is not in the join. */
  lemma {:induction false} JoinAvoids(parts: seq<string>, sep: char, c: char)
    requires |parts| >= 1 && c != sep
    requires forall i :: 0 <= i < |parts| ==> c !in parts[i]
    ensures c !in Join(parts, sep)
    decreases |parts|
  {
    if |parts| > 1 {
      JoinAvoids(parts[1..], sep, c);
    }
  }
}
