/**
 * The Python string operations the scrapers use, on `string` (a sequence
 * of `char`): `strip()`, `split(sep)`, `sep.join(parts)`, `replace`,
 * `lower()` (ASCII letters only) and the substring test `sub in s`.
 */
module Text {

  /** The characters Python's `str.isspace()` (and so `strip()`) treats as whitespace. */
  predicate IsSpace(c: char) {
    || c == ' ' || ('\t' <= c <= '\r') || ('\U{1C}' <= c <= '\U{1F}')
    || c == '\U{85}' || c == '\U{A0}' || c == '\U{1680}' || ('\U{2000}' <= c <= '\U{200A}')
    || c == '\U{2028}' || c == '\U{2029}' || c == '\U{202F}' || c == '\U{205F}' || c == '\U{3000}'
  }

  /** Removes leading whitespace: the result is a suffix of `s`, cut where whitespace stops. */
  function StripLeft(s: string): (r: string)
    ensures |r| <= |s| && r == s[|s| - |r|..]
    ensures r == [] || !IsSpace(r[0])
    ensures forall i :: 0 <= i < |s| - |r| ==> IsSpace(s[i])
  {
    if s != [] && IsSpace(s[0]) then StripLeft(s[1..]) else s
  }

  /** Removes trailing whitespace: the result is a prefix of `s`, cut where whitespace starts. */
  function StripRight(s: string): (r: string)
    ensures |r| <= |s| && r == s[..|r|]
    ensures r == [] || !IsSpace(r[|r| - 1])
    ensures forall i :: |r| <= i < |s| ==> IsSpace(s[i])
  {
    if s != [] && IsSpace(s[|s| - 1]) then StripRight(s[..|s| - 1]) else s
  }

  /** Every character is whitespace: Python's `s.strip() == ""`, as `Strip` shows. */
  predicate IsBlank(s: string) {
    forall i :: 0 <= i < |s| ==> IsSpace(s[i])
  }

  /** Python's `s.strip()`: no whitespace at either end, and empty exactly when `s` is blank. */
  function Strip(s: string): (r: string)
    ensures |r| <= |s|
    ensures r == [] || (!IsSpace(r[0]) && !IsSpace(r[|r| - 1]))
    ensures r == [] <==> IsBlank(s)
  {
    var l := StripLeft(s);
    var r := StripRight(l);
    r
  }

  /**
   * The strip is one contiguous piece of `s`, starting where the leading
   * whitespace `lstrip()` removes ends: nothing inside it changes.
   */
  lemma StripSlice(s: string, left: string, stripped: string)
    requires left == StripLeft(s) && stripped == Strip(s)
    ensures |s| - |left| + |stripped| <= |s|
    ensures stripped == s[|s| - |left|..|s| - |left| + |stripped|]
  {
    PrefixOfSuffix(s, left, stripped);
  }

  /** A prefix of a suffix is a slice. */
  lemma PrefixOfSuffix<T>(s: seq<T>, suffix: seq<T>, prefix: seq<T>)
    requires |suffix| <= |s| && suffix == s[|s| - |suffix|..]
    requires |prefix| <= |suffix| && prefix == suffix[..|prefix|]
    ensures |s| - |suffix| + |prefix| <= |s|
    ensures prefix == s[|s| - |suffix|..|s| - |suffix| + |prefix|]
  {
  }

  /** A string with no whitespace at either end is its own strip. */
  lemma StripTrimmed(s: string)
    requires s == [] || (!IsSpace(s[0]) && !IsSpace(s[|s| - 1]))
    ensures Strip(s) == s
  {
  }

  /** Python's `s.split(sep)` for a one-character separator: always at least one piece, none holding `sep`. */
  function Split(s: string, sep: char): (parts: seq<string>)
    ensures |parts| >= 1
    ensures forall k :: 0 <= k < |parts| ==> sep !in parts[k]
  {
    if s == [] then [[]]
    else
      var rest := Split(s[1..], sep);
      if s[0] == sep then [[]] + rest else [[s[0]] + rest[0]] + rest[1..]
  }

  /** Python's `glue.join(parts)` for a one-character glue. */
  function Join(glue: char, parts: seq<string>): string {
    if |parts| == 0 then []
    else if |parts| == 1 then parts[0]
    else parts[0] + [glue] + Join(glue, parts[1..])
  }

  /** Every occurrence of `from` in `s` replaced by `to`, everything else kept in place. */
  function Replace(s: string, from: char, to: char): (r: string)
    ensures |r| == |s|
    ensures forall i :: 0 <= i < |s| ==> r[i] == if s[i] == from then to else s[i]
  {
    if s == [] then [] else [if s[0] == from then to else s[0]] + Replace(s[1..], from, to)
  }

  /** Prepending a character to the first piece prepends it to the joined string. */
  lemma JoinConsHead(glue: char, x: char, parts: seq<string>)
    requires |parts| >= 1
    ensures Join(glue, [[x] + parts[0]] + parts[1..]) == [x] + Join(glue, parts)
  {
    var q := [[x] + parts[0]] + parts[1..];
    if |parts| > 1 {
      assert q[1..] == parts[1..];
    }
  }

  /** Joining the pieces of `split(sep)` with `glue` replaces each `sep` by `glue`. */
  lemma {:induction false} JoinSplit(s: string, sep: char, glue: char)
    ensures Join(glue, Split(s, sep)) == Replace(s, sep, glue)
  {
    if s != [] {
      var rest := Split(s[1..], sep);
      JoinSplit(s[1..], sep, glue);
      if s[0] == sep {
        assert ([[]] + rest)[1..] == rest;
      } else {
        JoinConsHead(glue, s[0], rest);
      }
    }
  }

  /** Splitting and rejoining with the same character gives back the string. */
  lemma JoinSplitIdentity(s: string, sep: char)
    ensures Join(sep, Split(s, sep)) == s
  {
    JoinSplit(s, sep, sep);
  }

  /**
   * Python's `s.replace(c, "")`: every `c` is gone, and every other
   * character is kept as often as it occurs, in its order.
   */
  function RemoveChar(s: string, c: char): (r: string)
    ensures c !in r
    ensures |r| <= |s|
    ensures forall x :: x in r ==> x in s
    ensures multiset(r) == multiset(s)[c := 0]
    ensures IsSubsequence(r, s)
  {
    if s == [] then []
    else
      var rest := RemoveChar(s[1..], c);
      assert s == [s[0]] + s[1..];
      if s[0] == c then
        assert rest == [] || IsSubsequence(rest, s[1..]);
        rest
      else
        assert ([s[0]] + rest)[1..] == rest;
        [s[0]] + rest
  }

  /** The pieces that are not empty, in their order. */
  function DropEmpty(parts: seq<string>): (r: seq<string>)
    ensures forall k :: 0 <= k < |r| ==> r[k] != [] && r[k] in parts
  {
    if parts == [] then [] else (if parts[0] == [] then [] else [parts[0]]) + DropEmpty(parts[1..])
  }

  /** Removing every copy of `d` from `[x] + s` removes them from `s`, and drops `x` when it is `d`. */
  lemma ConsRemoveAll<T>(x: T, s: seq<T>, d: T)
    ensures multiset([x] + s)[d := 0] == (if x == d then multiset{} else multiset{x}) + multiset(s)[d := 0]
  {
    assert multiset([x] + s) == multiset{x} + multiset(s);
  }

  /** Every non-empty piece is kept as often as it occurs. */
  lemma {:induction false} DropEmptyCount(parts: seq<string>)
    ensures multiset(DropEmpty(parts)) == multiset(parts)[[] := 0]
  {
    if parts != [] {
      DropEmptyCount(parts[1..]);
      assert parts == [parts[0]] + parts[1..];
      ConsRemoveAll(parts[0], parts[1..], []);
    }
  }

  /** The kept pieces come in the order of the pieces. */
  lemma {:induction false} DropEmptyInOrder(parts: seq<string>)
    ensures IsSubsequence(DropEmpty(parts), parts)
  {
    if parts != [] {
      var rest := DropEmpty(parts[1..]);
      DropEmptyInOrder(parts[1..]);
      if parts[0] == [] {
        assert DropEmpty(parts) == rest;
        assert rest == [] || IsSubsequence(rest, parts[1..]);
      } else {
        assert DropEmpty(parts) == [parts[0]] + rest;
        assert ([parts[0]] + rest)[1..] == rest;
      }
    }
  }

  /** Python's `" ".join(w for w in s.split(" ") if w != "")`: every run of spaces becomes one. */
  function CollapseSpaces(s: string): string {
    Join(' ', DropEmpty(Split(s, ' ')))
  }

  /** No space at either end and no two spaces in a row. */
  predicate SingleSpaced(s: string) {
    && (s == [] || (s[0] != ' ' && s[|s| - 1] != ' '))
    && forall i :: 0 <= i < |s| - 1 ==> !(s[i] == ' ' && s[i + 1] == ' ')
  }

  /** Joining non-empty, space-free pieces with a space gives a single-spaced string. */
  lemma {:induction false} JoinSingleSpaced(parts: seq<string>)
    requires forall k :: 0 <= k < |parts| ==> parts[k] != [] && ' ' !in parts[k]
    ensures SingleSpaced(Join(' ', parts))
    ensures parts != [] ==> Join(' ', parts) != [] && Join(' ', parts)[0] == parts[0][0]
  {
    if |parts| > 1 {
      JoinSingleSpaced(parts[1..]);
      var p, j := parts[0], Join(' ', parts[1..]);
      var r := p + [' '] + j;
      assert p[0] != ' ' by { assert p[0] in p; }
      assert p[|p| - 1] != ' ' by { assert p[|p| - 1] in p; }
      forall i | 0 <= i < |r| - 1 ensures !(r[i] == ' ' && r[i + 1] == ' ') {
        if i < |p| - 1 {
          assert r[i] == p[i];
          assert p[i] in p;
        } else if i >= |p| + 1 {
          assert r[i] == j[i - |p| - 1] && r[i + 1] == j[i - |p|];
        }
      }
    } else if |parts| == 1 {
      var p := parts[0];
      forall i | 0 <= i < |p| - 1 ensures p[i] != ' ' { assert p[i] in p; }
      assert p[0] in p && p[|p| - 1] in p;
    }
  }

  /** The collapsed string is single-spaced. */
  lemma CollapseSingleSpaced(s: string)
    ensures SingleSpaced(CollapseSpaces(s))
  {
    var parts := DropEmpty(Split(s, ' '));
    forall k | 0 <= k < |parts| ensures parts[k] != [] && ' ' !in parts[k] {
      var q := Split(s, ' ');
      assert parts[k] in q;
      var m :| 0 <= m < |q| && q[m] == parts[k];
    }
    JoinSingleSpaced(parts);
  }

  /** A non-empty single-spaced string splits on spaces into non-empty pieces only. */
  lemma {:induction false} SplitSingleSpaced(s: string)
    requires s != [] && SingleSpaced(s)
    ensures forall k :: 0 <= k < |Split(s, ' ')| ==> Split(s, ' ')[k] != []
  {
    var t := s[1..];
    if t != [] {
      if t[0] == ' ' {
        var u := t[1..];
        assert s[1] == ' ';
        assert u != [] && u[0] == s[2];
        assert SingleSpaced(u) by {
          forall i | 0 <= i < |u| - 1 ensures !(u[i] == ' ' && u[i + 1] == ' ') {
            assert u[i] == s[i + 2] && u[i + 1] == s[i + 3];
          }
        }
        SplitSingleSpaced(u);
        assert Split(t, ' ') == [[]] + Split(u, ' ');
      } else {
        assert SingleSpaced(t) by {
          forall i | 0 <= i < |t| - 1 ensures !(t[i] == ' ' && t[i + 1] == ' ') {
            assert t[i] == s[i + 1] && t[i + 1] == s[i + 2];
          }
        }
        SplitSingleSpaced(t);
      }
    }
  }

  /** Dropping empties from a sequence with none leaves it unchanged. */
  lemma {:induction false} DropEmptyNone(parts: seq<string>)
    requires forall k :: 0 <= k < |parts| ==> parts[k] != []
    ensures DropEmpty(parts) == parts
  {
    if parts != [] {
      DropEmptyNone(parts[1..]);
    }
  }

  /** A single-spaced string is unchanged by collapsing. */
  lemma CollapseSingleSpacedFixed(s: string)
    requires SingleSpaced(s)
    ensures CollapseSpaces(s) == s
  {
    if s != [] {
      SplitSingleSpaced(s);
      DropEmptyNone(Split(s, ' '));
    }
    JoinSplitIdentity(s, ' ');
  }

  /** The last piece of a split ends with the text's last character, unless that is the separator. */
  lemma {:induction false} SplitLastPiece(s: string, sep: char)
    requires s != [] && s[|s| - 1] != sep
    ensures var p := Split(s, sep); p[|p| - 1] != [] && p[|p| - 1][|p[|p| - 1]| - 1] == s[|s| - 1]
  {
    var t := s[1..];
    if t != [] {
      assert t[|t| - 1] == s[|s| - 1];
      SplitLastPiece(t, sep);
    }
  }

  /** Dropping empties keeps a non-empty last piece last. */
  lemma {:induction false} DropEmptyLast(parts: seq<string>)
    requires parts != [] && parts[|parts| - 1] != []
    ensures var r := DropEmpty(parts); r != [] && r[|r| - 1] == parts[|parts| - 1]
  {
    if |parts| > 1 {
      DropEmptyLast(parts[1..]);
    }
  }

  /** A join ends with the last character of its last piece. */
  lemma {:induction false} JoinLast(glue: char, parts: seq<string>)
    requires parts != [] && parts[|parts| - 1] != []
    ensures var j := Join(glue, parts); var q := parts[|parts| - 1]; j != [] && j[|j| - 1] == q[|q| - 1]
  {
    if |parts| > 1 {
      JoinLast(glue, parts[1..]);
    }
  }

  /** Collapsing the spaces of the empty string gives the empty string. */
  lemma CollapseEmpty()
    ensures CollapseSpaces("") == ""
  {
    assert Split("", ' ') == [""];
    assert DropEmpty([""]) == [];
  }

  /** Collapsing spaces keeps the first character when it is not a space. */
  lemma CollapseKeepsFirst(s: string)
    requires s != [] && s[0] != ' '
    ensures var c := CollapseSpaces(s); c != [] && c[0] == s[0]
  {
    var pieces := Split(s, ' ');
    var kept := DropEmpty(pieces);
    assert pieces[0] != [] && pieces[0][0] == s[0];
    assert kept[0] == pieces[0];
    forall k | 0 <= k < |kept| ensures kept[k] != [] && ' ' !in kept[k] {
      assert kept[k] in pieces;
    }
    JoinSingleSpaced(kept);
  }

  /** Collapsing spaces keeps the last character when it is not a space. */
  lemma CollapseKeepsLast(s: string)
    requires s != [] && s[|s| - 1] != ' '
    ensures var c := CollapseSpaces(s); c != [] && c[|c| - 1] == s[|s| - 1]
  {
    var pieces := Split(s, ' ');
    var kept := DropEmpty(pieces);
    SplitLastPiece(s, ' ');
    var last := pieces[|pieces| - 1];
    assert last != [] && last[|last| - 1] == s[|s| - 1];
    DropEmptyLast(pieces);
    assert kept != [] && kept[|kept| - 1] == last;
    JoinLast(' ', kept);
  }

  /** Collapsing spaces keeps the first and last characters when neither is a space. */
  lemma CollapseKeepsEnds(s: string)
    requires s != [] && s[0] != ' ' && s[|s| - 1] != ' '
    ensures var c := CollapseSpaces(s); c != [] && c[0] == s[0] && c[|c| - 1] == s[|s| - 1]
  {
    CollapseKeepsFirst(s);
    CollapseKeepsLast(s);
  }

  /** ASCII `lower()` of one character. */
  function LowerChar(c: char): (r: char)
    ensures 'A' <= c <= 'Z' ==> 'a' <= r <= 'z' && r as int == c as int + 32
    ensures !('A' <= c <= 'Z') ==> r == c
  {
    if 'A' <= c <= 'Z' then (c as int + 32) as char else c
  }

  /** Python's `s.lower()` restricted to ASCII letters. */
  function Lower(s: string): (r: string)
    ensures |r| == |s|
    ensures forall i :: 0 <= i < |s| ==> r[i] == LowerChar(s[i])
  {
    if s == [] then [] else [LowerChar(s[0])] + Lower(s[1..])
  }

  /** `sub` occurs in `s` at position `i`. */
  ghost predicate OccursAt(s: string, sub: string, i: nat) {
    i + |sub| <= |s| && s[i..i + |sub|] == sub
  }

  /** Python's substring test `sub in s`. */
  function Contains(s: string, sub: string): (b: bool)
    ensures b <==> exists i: nat :: OccursAt(s, sub, i)
  {
    if |sub| > |s| then false
    else if s[..|sub|] == sub then (assert OccursAt(s, sub, 0); true)
    else
      var b := Contains(s[1..], sub);
      assert b ==> exists i: nat :: OccursAt(s, sub, i) by {
        if b {
          var j: nat :| OccursAt(s[1..], sub, j);
          assert s[j + 1..j + 1 + |sub|] == s[1..][j..j + |sub|];
          assert OccursAt(s, sub, j + 1);
        }
      }
      assert (exists i: nat :: OccursAt(s, sub, i)) ==> b by {
        if exists i: nat :: OccursAt(s, sub, i) {
          var i: nat :| OccursAt(s, sub, i);
          assert i != 0;
          assert s[1..][i - 1..i - 1 + |sub|] == s[i..i + |sub|];
          assert OccursAt(s[1..], sub, i - 1);
        }
      }
      b
  }

  /** `a` is `b` with some elements left out, the rest kept in order. */
  predicate IsSubsequence<T(==)>(a: seq<T>, b: seq<T>) {
    if a == [] then true
    else if b == [] then false
    else (a[0] == b[0] && IsSubsequence(a[1..], b[1..])) || IsSubsequence(a, b[1..])
  }
}
