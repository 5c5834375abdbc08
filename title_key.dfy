/**
 * The graph-node identity key of a paper title: `sanitize_title` in
 * server/database/graph.py and prototype/graph.py, and the identical
 * `sanitize_text` in app/utils.py. The key is
 * `title.strip().replace('\n', '').replace('-', '').replace(' ', '').lower()`.
 */
module TitleKey {

  /** Python's `str.isspace`: the characters `str.strip()` trims. */
  predicate IsWhitespace(c: char)
  {
    var n := c as int;
    || n == 0x20 || 0x09 <= n <= 0x0D || 0x1C <= n <= 0x1F
    || n == 0x85 || n == 0xA0 || n == 0x1680 || 0x2000 <= n <= 0x200A
    || n == 0x2028 || n == 0x2029 || n == 0x202F || n == 0x205F || n == 0x3000
  }

  /** The three characters the key deletes. */
  predicate IsSeparator(c: char)
  {
    c == ' ' || c == '\n' || c == '-'
  }

  /** Titles whose only whitespace is the space and the newline. */
  predicate OnlySpaceOrNewline(s: string)
  {
    forall i :: 0 <= i < |s| && IsWhitespace(s[i]) ==> s[i] == ' ' || s[i] == '\n'
  }

  /** `str.lstrip()`: drop the leading whitespace, and only that. */
  function TrimStart(s: string): (r: string)
    ensures |r| <= |s| && r == s[|s| - |r|..]
  {
    if s != [] && IsWhitespace(s[0]) then TrimStart(s[1..]) else s
  }

  /** `str.rstrip()`: drop the trailing whitespace, and only that. */
  function TrimEnd(s: string): (r: string)
    ensures |r| <= |s| && r == s[..|r|]
  {
    if s != [] && IsWhitespace(s[|s| - 1]) then TrimEnd(s[..|s| - 1]) else s
  }

  /** `str.strip()` */
  function Strip(s: string): string
  {
    TrimEnd(TrimStart(s))
  }

  /** `lstrip` removes the leading whitespace and stops at the first other character. */
  lemma {:induction false} TrimStartRemovesLeadingWhitespace(s: string)
    ensures var r := TrimStart(s);
      && (r == [] || !IsWhitespace(r[0]))
      && (forall i :: 0 <= i < |s| - |r| ==> IsWhitespace(s[i]))
  {
    if s != [] && IsWhitespace(s[0]) {
      var tail := s[1..];
      TrimStartRemovesLeadingWhitespace(tail);
      assert forall i :: 1 <= i < |s| ==> s[i] == tail[i - 1];
    }
  }

  /** `rstrip` removes the trailing whitespace and stops at the last other character. */
  lemma {:induction false} TrimEndRemovesTrailingWhitespace(s: string)
    ensures var r := TrimEnd(s);
      && (r == [] || !IsWhitespace(r[|r| - 1]))
      && (forall i :: |r| <= i < |s| ==> IsWhitespace(s[i]))
  {
    if s != [] && IsWhitespace(s[|s| - 1]) {
      var init := s[..|s| - 1];
      TrimEndRemovesTrailingWhitespace(init);
      assert forall i :: 0 <= i < |init| ==> s[i] == init[i];
    }
  }

  /** `strip` leaves a title that neither starts nor ends with whitespace. */
  lemma StripTrimsBothEnds(s: string)
    ensures var r := Strip(s); r == [] || (!IsWhitespace(r[0]) && !IsWhitespace(r[|r| - 1]))
  {
    var t := TrimStart(s);
    var r := TrimEnd(t);
    TrimStartRemovesLeadingWhitespace(s);
    TrimEndRemovesTrailingWhitespace(t);
    if r != [] {
      assert r[0] == t[0];
    }
  }

  /** `strip` removes only whitespace: every other character of the title stays, and nothing is added. */
  lemma StripRemovesOnlyWhitespace(s: string)
    ensures forall j :: 0 <= j < |s| && !IsWhitespace(s[j]) ==> s[j] in Strip(s)
    ensures forall x :: x in Strip(s) ==> x in s
  {
    var t := TrimStart(s);
    var r := TrimEnd(t);
    var i := |s| - |t|;
    assert t == s[i..] && r == t[..|r|];
    TrimStartRemovesLeadingWhitespace(s);
    TrimEndRemovesTrailingWhitespace(t);
    forall j | 0 <= j < |s| && !IsWhitespace(s[j]) ensures s[j] in r {
      assert i <= j;
      assert j - i < |r|;
      assert r[j - i] == s[j];
    }
    forall x | x in r ensures x in s {
      var k :| 0 <= k < |r| && r[k] == x;
      assert s[i + k] == x;
    }
  }

  /** `s.replace(c, '')` for a one-character pattern. */
  function Remove(s: string, c: char): (r: string)
    ensures |r| <= |s|
    ensures forall x :: x in r <==> x in s && x != c
  {
    if s == [] then [] else (if s[0] == c then [] else [s[0]]) + Remove(s[1..], c)
  }

  /** ASCII `str.lower()` on one character. */
  function LowerChar(c: char): char
  {
    if 'A' <= c <= 'Z' then (c as int + 32) as char else c
  }

  /** ASCII `str.lower()` */
  function Lower(s: string): (r: string)
    ensures |r| == |s| && forall i :: 0 <= i < |s| ==> r[i] == LowerChar(s[i])
  {
    if s == [] then [] else [LowerChar(s[0])] + Lower(s[1..])
  }

  /** The node key: strip, delete newlines, hyphens and spaces, lower-case. */
  function SanitizeTitle(title: string): (key: string)
    ensures forall i :: 0 <= i < |key| ==> !IsSeparator(key[i])
  {
    var noNewline := Remove(Strip(title), '\n');
    var noHyphen := Remove(noNewline, '-');
    var kept := Remove(noHyphen, ' ');
    assert '\n' !in noHyphen && '-' !in noHyphen;
    assert '\n' !in kept && '-' !in kept && ' ' !in kept;
    var key := Lower(kept);
    assert forall i :: 0 <= i < |key| ==> !IsSeparator(key[i]) by {
      forall i | 0 <= i < |key| ensures !IsSeparator(key[i]) {
        assert kept[i] in kept;
        LowerCharKeepsClasses(kept[i]);
      }
    }
    key
  }

  /** Reference definition: drop every separator in one pass. */
  function DropSeparators(s: string): (r: string)
    ensures forall x :: x in r <==> x in s && !IsSeparator(x)
  {
    if s == [] then [] else (if IsSeparator(s[0]) then [] else [s[0]]) + DropSeparators(s[1..])
  }

  lemma {:induction false} RemoveAppend(a: string, b: string, c: char)
    ensures Remove(a + b, c) == Remove(a, c) + Remove(b, c)
  {
    if a != [] {
      assert (a + b)[1..] == a[1..] + b;
      RemoveAppend(a[1..], b, c);
    } else {
      assert a + b == b;
    }
  }

  lemma {:induction false} RemoveSeparatorsIsDrop(s: string)
    ensures Remove(Remove(Remove(s, '\n'), '-'), ' ') == DropSeparators(s)
  {
    if s != [] {
      var h, t := [s[0]], s[1..];
      assert s == h + t;
      RemoveAppend(h, t, '\n');
      RemoveAppend(Remove(h, '\n'), Remove(t, '\n'), '-');
      RemoveAppend(Remove(Remove(h, '\n'), '-'), Remove(Remove(t, '\n'), '-'), ' ');
      RemoveSeparatorsIsDrop(t);
    }
  }

  lemma {:induction false} DropSeparatorsAppend(a: string, b: string)
    ensures DropSeparators(a + b) == DropSeparators(a) + DropSeparators(b)
  {
    if a == [] {
      assert a + b == b;
    } else {
      assert (a + b)[1..] == a[1..] + b;
      DropSeparatorsAppend(a[1..], b);
    }
  }

  /** With only spaces and newlines as whitespace, `strip` removes nothing the key keeps. */
  lemma {:induction false} StripDropsOnlySeparators(s: string)
    requires OnlySpaceOrNewline(s)
    ensures DropSeparators(Strip(s)) == DropSeparators(s)
  {
    TrimStartDropsOnlySeparators(s);
    var t := TrimStart(s);
    OnlySpaceOrNewlineSuffix(s, |s| - |t|);
    TrimEndDropsOnlySeparators(t);
  }

  lemma OnlySpaceOrNewlineSuffix(s: string, k: nat)
    requires OnlySpaceOrNewline(s) && k <= |s|
    ensures OnlySpaceOrNewline(s[k..])
  {
    forall i | 0 <= i < |s| - k ensures s[k..][i] == s[k + i] {}
  }

  lemma {:induction false} TrimStartDropsOnlySeparators(s: string)
    requires OnlySpaceOrNewline(s)
    ensures DropSeparators(TrimStart(s)) == DropSeparators(s)
  {
    if s != [] && IsWhitespace(s[0]) {
      assert IsSeparator(s[0]);
      TrimStartDropsOnlySeparators(s[1..]);
    }
  }

  lemma {:induction false} TrimEndDropsOnlySeparators(s: string)
    requires OnlySpaceOrNewline(s)
    ensures DropSeparators(TrimEnd(s)) == DropSeparators(s)
  {
    if s != [] && IsWhitespace(s[|s| - 1]) {
      var init, last := s[..|s| - 1], s[|s| - 1];
      assert IsSeparator(last);
      assert s == init + [last];
      DropSeparatorsAppend(init, [last]);
      assert DropSeparators([last]) == [];
      TrimEndDropsOnlySeparators(init);
    }
  }

  /**
   * For titles whose only whitespace is space and newline, the key is
   * "delete every space, newline and hyphen, then lower-case".
   */
  lemma SanitizeCharacterisation(s: string)
    requires OnlySpaceOrNewline(s)
    ensures SanitizeTitle(s) == Lower(DropSeparators(s))
  {
    RemoveSeparatorsIsDrop(Strip(s));
    StripDropsOnlySeparators(s);
  }

  lemma {:induction false} DropSeparatorsNoop(s: string)
    requires forall i :: 0 <= i < |s| ==> !IsSeparator(s[i])
    ensures DropSeparators(s) == s
  {
    if s != [] {
      DropSeparatorsNoop(s[1..]);
    }
  }

  /** Lower-casing one character keeps its class and is idempotent. */
  lemma LowerCharKeepsClasses(c: char)
    ensures IsWhitespace(LowerChar(c)) == IsWhitespace(c)
    ensures IsSeparator(LowerChar(c)) == IsSeparator(c)
    ensures LowerChar(LowerChar(c)) == LowerChar(c)
  {
    if 'A' <= c <= 'Z' {
      assert 'a' <= LowerChar(c) <= 'z';
    }
  }

  /** Lower-casing keeps letters letters: it adds no whitespace and no separator. */
  lemma LowerKeepsClasses(s: string)
    ensures forall i :: 0 <= i < |s| ==>
      IsWhitespace(Lower(s)[i]) == IsWhitespace(s[i]) && IsSeparator(Lower(s)[i]) == IsSeparator(s[i])
    ensures Lower(Lower(s)) == Lower(s)
  {
    forall i | 0 <= i < |s| ensures LowerChar(LowerChar(s[i])) == LowerChar(s[i])
      && IsWhitespace(LowerChar(s[i])) == IsWhitespace(s[i]) && IsSeparator(LowerChar(s[i])) == IsSeparator(s[i])
    {
      LowerCharKeepsClasses(s[i]);
    }
  }

  /** Under the same restriction, sanitising a key again changes nothing. */
  lemma SanitizeIdempotent(s: string)
    requires OnlySpaceOrNewline(s)
    ensures SanitizeTitle(SanitizeTitle(s)) == SanitizeTitle(s)
  {
    SanitizeCharacterisation(s);
    var d := DropSeparators(s);
    var k := Lower(d);
    assert forall i :: 0 <= i < |d| ==> !IsWhitespace(d[i]) && !IsSeparator(d[i]) by {
      forall i | 0 <= i < |d| ensures !IsWhitespace(d[i]) && !IsSeparator(d[i]) {
        assert d[i] in d;
        var j :| 0 <= j < |s| && s[j] == d[i];
      }
    }
    LowerKeepsClasses(d);
    assert OnlySpaceOrNewline(k);
    SanitizeCharacterisation(k);
    DropSeparatorsNoop(k);
  }

  /** `x` and `y` are equal up to ASCII letter case. */
  predicate SameUpToCase(x: string, y: string)
  {
    |x| == |y| && forall i :: 0 <= i < |x| ==> LowerChar(x[i]) == LowerChar(y[i])
  }

  /**
   * Two titles (whitespace only space and newline) get the same key exactly
   * when they differ only in letter case and in where spaces, hyphens and
   * newlines stand.
   */
  lemma SameKeyIffSameUpToCase(a: string, b: string)
    requires OnlySpaceOrNewline(a) && OnlySpaceOrNewline(b)
    ensures SanitizeTitle(a) == SanitizeTitle(b) <==> SameUpToCase(DropSeparators(a), DropSeparators(b))
  {
    SanitizeCharacterisation(a);
    SanitizeCharacterisation(b);
    var x, y := DropSeparators(a), DropSeparators(b);
    if SanitizeTitle(a) == SanitizeTitle(b) {
      assert |Lower(x)| == |x| && |Lower(y)| == |y|;
      forall i | 0 <= i < |x| ensures LowerChar(x[i]) == LowerChar(y[i]) {
        assert Lower(x)[i] == Lower(y)[i];
      }
    }
  }

  /**
   * Without the restriction the key is not idempotent: deleting the hyphen
   * exposes a tab that only a second `strip` removes.
   */
  lemma TabBreaksIdempotence()
    ensures SanitizeTitle("-\tx") == "\tx"
    ensures SanitizeTitle("\tx") == "x"
  {
    var tx: string := ['\t', 'x'];
    var x: string := ['x'];
    assert tx[1..] == x && x[1..] == [];
    assert Remove([], '\n') == [] && Remove([], '-') == [] && Remove([], ' ') == [];
    assert Remove(x, '\n') == x && Remove(x, '-') == x && Remove(x, ' ') == x;
    assert Remove(tx, '\n') == tx && Remove(tx, '-') == tx && Remove(tx, ' ') == tx;
    var htx: string := ['-', '\t', 'x'];
    assert htx[1..] == tx;
    assert Strip(htx) == htx;
    assert Remove(htx, '\n') == htx;
    assert Remove(htx, '-') == tx;
    assert Lower(tx) == tx;
    assert TrimStart(tx) == x;
    assert Strip(tx) == x;
    assert Lower(x) == x;
  }
}
