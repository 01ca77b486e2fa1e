/**
 * The parts of Python's `str` that the bot relies on: whitespace, `strip()`,
 * `split(sep)`, `endswith`, over `string` = `seq<char>`.
 */
module Text {

  /** Python's `str.isspace()` on one character: the code points `strip()` removes. */
  predicate IsSpace(c: char) {
    var n := c as int;
    || n == 0x20 || 0x09 <= n <= 0x0D || 0x1C <= n <= 0x1F
    || n == 0x85 || n == 0xA0 || n == 0x1680 || 0x2000 <= n <= 0x200A
    || n == 0x2028 || n == 0x2029 || n == 0x202F || n == 0x205F || n == 0x3000
  }

  predicate AllSpace(s: string) {
    forall i :: 0 <= i < |s| ==> IsSpace(s[i])
  }

  /** `s.lstrip()`: `s` without its leading whitespace. */
  function TrimLeft(s: string): string {
    if |s| > 0 && IsSpace(s[0]) then TrimLeft(s[1..]) else s
  }

  /** `s.rstrip()`: `s` without its trailing whitespace. */
  function TrimRight(s: string): string {
    if |s| > 0 && IsSpace(s[|s| - 1]) then TrimRight(s[..|s| - 1]) else s
  }

  /**
   * `s.strip()`: `s` without the whitespace at either end. The result is
   * no longer than `s` and neither starts nor ends with whitespace.
   */
  function Strip(s: string): (r: string)
    ensures |r| <= |s|
    ensures r == [] || (!IsSpace(r[0]) && !IsSpace(r[|r| - 1]))
  {
    TrimLeftSpec(s);
    TrimRightSpec(TrimLeft(s));
    TrimRight(TrimLeft(s))
  }

  /** `lstrip()` removes a prefix of whitespace and leaves no whitespace in front. */
  lemma {:induction false} TrimLeftSpec(s: string)
    ensures |TrimLeft(s)| <= |s| && TrimLeft(s) == s[|s| - |TrimLeft(s)|..]
    ensures forall i :: 0 <= i < |s| - |TrimLeft(s)| ==> IsSpace(s[i])
    ensures TrimLeft(s) == [] || !IsSpace(TrimLeft(s)[0])
  {
    if |s| > 0 && IsSpace(s[0]) {
      TrimLeftSpec(s[1..]);
      assert forall i :: 1 <= i < |s| ==> s[i] == s[1..][i - 1];
    }
  }

  /** `rstrip()` removes a suffix of whitespace and leaves no whitespace behind. */
  lemma {:induction false} TrimRightSpec(s: string)
    ensures |TrimRight(s)| <= |s| && TrimRight(s) == s[..|TrimRight(s)|]
    ensures forall i :: |TrimRight(s)| <= i < |s| ==> IsSpace(s[i])
    ensures TrimRight(s) == [] || !IsSpace(TrimRight(s)[|TrimRight(s)| - 1])
  {
    if |s| > 0 && IsSpace(s[|s| - 1]) {
      TrimRightSpec(s[..|s| - 1]);
    }
  }

  /** `strip()` leaves nothing exactly when the string is blank. */
  lemma StripSpec(s: string)
    ensures Strip(s) == [] <==> AllSpace(s)
  {
    var t := TrimLeft(s);
    TrimLeftSpec(s);
    TrimRightSpec(t);
    var i := |s| - |t|;
    if t != [] {
      assert t[0] == s[i];
    }
  }

  /** `s.endswith(suffix)`: `s` is some text followed by `suffix`. */
  lemma EndsWithSpec(s: string, suffix: string)
    ensures EndsWith(s, suffix) <==> exists head :: head + suffix == s
  {
    if EndsWith(s, suffix) {
      var head := s[..|s| - |suffix|];
      assert head + suffix == s;
    }
    if exists head :: head + suffix == s {
      var head :| head + suffix == s;
      assert s[|s| - |suffix|..] == suffix;
    }
  }

  /**
   * `s.split(sep)` for a non-empty `sep`, read left to right: a `sep` that
   * starts at the current position closes the current piece; any other
   * character joins it. There is always at least one piece.
   */
  function Split(s: string, sep: string): (r: seq<string>)
    requires sep != []
    ensures |r| >= 1
    decreases |s|
  {
    if s == [] then [""]
    else if sep <= s then [""] + Split(s[|sep|..], sep)
    else ExtendFirst([s[0]], Split(s[1..], sep))
  }

  /** `parts` with `head` prepended to its first piece. */
  function ExtendFirst(head: string, parts: seq<string>): (r: seq<string>)
    requires |parts| >= 1
    ensures |r| == |parts|
  {
    [head + parts[0]] + parts[1..]
  }

  /** `parts` with `tail` appended to its last piece. */
  function ExtendLast(parts: seq<string>, tail: string): (r: seq<string>)
    requires |parts| >= 1
    ensures |r| == |parts|
  {
    parts[..|parts| - 1] + [parts[|parts| - 1] + tail]
  }

  /** `sep.join(parts)`. */
  function Join(parts: seq<string>, sep: string): string
    requires |parts| >= 1
  {
    if |parts| == 1 then parts[0] else parts[0] + sep + Join(parts[1..], sep)
  }

  lemma JoinExtendFirst(head: string, parts: seq<string>, sep: string)
    requires |parts| >= 1
    ensures Join(ExtendFirst(head, parts), sep) == head + Join(parts, sep)
  {
    var e := ExtendFirst(head, parts);
    if |parts| > 1 {
      assert e[1..] == parts[1..];
    }
  }

  /** Splitting loses nothing: joining the pieces back gives the original string. */
  lemma {:induction false} JoinSplit(s: string, sep: string)
    requires sep != []
    ensures Join(Split(s, sep), sep) == s
    decreases |s|
  {
    if s == [] {
    } else if sep <= s {
      var rest := s[|sep|..];
      var pieces := Split(rest, sep);
      JoinSplit(rest, sep);
      assert Split(s, sep) == [""] + pieces;
      assert ([""] + pieces)[1..] == pieces;
      assert Join([""] + pieces, sep) == "" + sep + Join(pieces, sep);
      assert s == s[..|sep|] + rest;
    } else {
      var pieces := Split(s[1..], sep);
      JoinSplit(s[1..], sep);
      assert Split(s, sep) == ExtendFirst([s[0]], pieces);
      JoinExtendFirst([s[0]], pieces, sep);
      assert s == [s[0]] + s[1..];
    }
  }

  /** A character that cannot start `sep` only lengthens the first piece of a split. */
  lemma SplitPrepend(c: char, s: string, sep: string)
    requires sep != [] && c != sep[0]
    ensures Split([c] + s, sep) == ExtendFirst([c], Split(s, sep))
  {
    assert ([c] + s)[1..] == s;
    assert !(sep <= [c] + s) by {
      if |sep| <= |[c] + s| {
        assert ([c] + s)[0] == c;
      }
    }
  }

  /** Lengthening the first and the last piece commute. */
  lemma ExtendFirstLast(head: string, parts: seq<string>, tail: string)
    requires |parts| >= 1
    ensures ExtendFirst(head, ExtendLast(parts, tail)) == ExtendLast(ExtendFirst(head, parts), tail)
  {
    var n := |parts|;
    if n == 1 {
      assert head + (parts[0] + tail) == (head + parts[0]) + tail;
    } else {
      assert ExtendLast(parts, tail)[1..] == parts[1..n - 1] + [parts[n - 1] + tail];
      assert ExtendFirst(head, parts)[..n - 1] == [head + parts[0]] + parts[1..n - 1];
    }
  }

  /** A character that cannot end `sep` only lengthens the last piece of a split. */
  lemma {:induction false} SplitAppend(s: string, c: char, sep: string)
    requires sep != [] && c != sep[|sep| - 1]
    ensures Split(s + [c], sep) == ExtendLast(Split(s, sep), [c])
    decreases |s|
  {
    var sc := s + [c];
    if s == [] {
      assert sc[1..] == [];
      assert [c] + "" == [c] && "" + [c] == [c];
    } else if sep <= s {
      assert sep <= sc;
      assert sc[|sep|..] == s[|sep|..] + [c];
      SplitAppend(s[|sep|..], c, sep);
    } else {
      assert !(sep <= sc) by {
        if |sep| <= |s| {
          assert sc[..|sep|] == s[..|sep|];
        } else if |sep| == |sc| {
          assert sc[|sep| - 1] == c;
        }
      }
      assert sc[1..] == s[1..] + [c];
      SplitAppend(s[1..], c, sep);
      ExtendFirstLast([s[0]], Split(s[1..], sep), [c]);
    }
  }

  /** A split that starts with `c` and then `sep`, where `c` is not part of `sep`. */
  lemma SplitAroundEmpty(c: char, sep: string, y: string)
    requires sep != [] && c !in sep
    ensures Split([c] + sep + y, sep) == Split([c], sep) + Split(y, sep)
  {
    assert c != sep[0];
    SplitPrepend(c, sep + y, sep);
    assert [c] + sep + y == [c] + (sep + y);
    assert (sep + y)[|sep|..] == y;
    SplitPrepend(c, [], sep);
    assert [c] + [] == [c];
  }

  /** A `sep` at the front of `x + [c] + sep + y` lies inside `x`. */
  lemma SplitAroundSepStep(x: string, c: char, sep: string, y: string)
    requires sep != [] && c !in sep && sep <= x + [c] + sep + y
    ensures |sep| <= |x|
    ensures Split(x + [c] + sep + y, sep) == [""] + Split(x[|sep|..] + [c] + sep + y, sep)
    ensures Split(x + [c], sep) == [""] + Split(x[|sep|..] + [c], sep)
  {
    var u := x + [c];
    var t := u + sep + y;
    assert t[|x|] == c;
    assert sep <= u by {
      assert u[..|sep|] == t[..|sep|];
    }
    assert t[|sep|..] == x[|sep|..] + [c] + sep + y;
    assert u[|sep|..] == x[|sep|..] + [c];
  }

  /** Without a `sep` at the front, the first character of `x` starts the first piece. */
  lemma SplitAroundCharStep(x: string, c: char, sep: string, y: string)
    requires sep != [] && x != [] && !(sep <= x + [c] + sep + y)
    ensures Split(x + [c] + sep + y, sep) == ExtendFirst([x[0]], Split(x[1..] + [c] + sep + y, sep))
    ensures Split(x + [c], sep) == ExtendFirst([x[0]], Split(x[1..] + [c], sep))
  {
    var u := x + [c];
    var t := u + sep + y;
    assert !(sep <= u) by {
      if |sep| <= |u| {
        assert u[..|sep|] == t[..|sep|];
      }
    }
    assert t[1..] == x[1..] + [c] + sep + y;
    assert u[1..] == x[1..] + [c];
  }

  lemma ExtendFirstAppend(head: string, a: seq<string>, b: seq<string>)
    requires |a| >= 1
    ensures ExtendFirst(head, a + b) == ExtendFirst(head, a) + b
  {
    assert (a + b)[1..] == a[1..] + b;
  }

  /**
   * Splitting `x + [c] + sep + y`, where `c` is not part of `sep`, gives the
   * pieces of `x + [c]` followed by the pieces of `y`: no `sep` can straddle `c`.
   */
  lemma {:induction false} SplitAround(x: string, c: char, sep: string, y: string)
    requires sep != [] && c !in sep
    ensures Split(x + [c] + sep + y, sep) == Split(x + [c], sep) + Split(y, sep)
    decreases |x|
  {
    if x == [] {
      assert x + [c] == [c];
      SplitAroundEmpty(c, sep, y);
    } else if sep <= x + [c] + sep + y {
      SplitAroundSepStep(x, c, sep, y);
      SplitAround(x[|sep|..], c, sep, y);
    } else {
      SplitAroundCharStep(x, c, sep, y);
      SplitAround(x[1..], c, sep, y);
      ExtendFirstAppend([x[0]], Split(x[1..] + [c], sep), Split(y, sep));
    }
  }

  /** `lstrip()` of a string with one more character at its end. */
  lemma {:induction false} TrimLeftAppend(t: string, c: char)
    ensures TrimLeft(t + [c]) == if TrimLeft(t) == [] then TrimLeft([c]) else TrimLeft(t) + [c]
  {
    if |t| > 0 && IsSpace(t[0]) {
      assert (t + [c])[1..] == t[1..] + [c];
      TrimLeftAppend(t[1..], c);
    }
  }

  /** Whitespace put in front of a string does not change its `strip()`. */
  lemma StripPrependSpace(c: char, t: string)
    requires IsSpace(c)
    ensures Strip([c] + t) == Strip(t)
  {
    assert ([c] + t)[1..] == t;
  }

  /** Whitespace put after a string does not change its `strip()`. */
  lemma StripAppendSpace(t: string, c: char)
    requires IsSpace(c)
    ensures Strip(t + [c]) == Strip(t)
  {
    TrimLeftAppend(t, c);
    var l := TrimLeft(t);
    if l != [] {
      assert (l + [c])[..|l|] == l;
    }
  }

  /** The leading run of non-whitespace characters of `s`. */
  function Word(s: string): (r: string)
    ensures r <= s
    ensures forall i :: 0 <= i < |r| ==> !IsSpace(r[i])
    ensures |r| < |s| ==> IsSpace(s[|r|])
  {
    if s == [] || IsSpace(s[0]) then [] else [s[0]] + Word(s[1..])
  }

  /** `s.split()` with no separator: the maximal runs of non-whitespace characters, in order. */
  function Words(s: string): (r: seq<string>)
    ensures forall k :: 0 <= k < |r| ==> r[k] != [] && forall i :: 0 <= i < |r[k]| ==> !IsSpace(r[k][i])
    decreases |s|
  {
    if s == [] then []
    else if IsSpace(s[0]) then Words(s[1..])
    else var w := Word(s); [w] + Words(s[|w|..])
  }

  /** A run of non-whitespace followed by whitespace or the end is the first word. */
  lemma {:induction false} WordPrefix(w: string, rest: string)
    requires forall i :: 0 <= i < |w| ==> !IsSpace(w[i])
    requires rest == [] || IsSpace(rest[0])
    ensures Word(w + rest) == w
  {
    if w != [] {
      assert (w + rest)[1..] == w[1..] + rest;
      WordPrefix(w[1..], rest);
    } else {
      assert w + rest == rest;
    }
  }

  /** The words of `w`, a whitespace character, then `s` are `w` followed by the words of `s`. */
  lemma WordsPrepend(w: string, c: char, s: string)
    requires w != [] && forall i :: 0 <= i < |w| ==> !IsSpace(w[i])
    requires IsSpace(c)
    ensures Words(w + [c] + s) == [w] + Words(s)
  {
    var t := w + [c] + s;
    WordPrefix(w, [c] + s);
    assert t == w + ([c] + s);
    assert t[|w|..] == [c] + s;
    assert ([c] + s)[1..] == s;
  }

  /** A single run of non-whitespace characters is one word. */
  lemma WordsSingle(w: string)
    requires w != [] && forall i :: 0 <= i < |w| ==> !IsSpace(w[i])
    ensures Words(w) == [w]
  {
    WordPrefix(w, []);
    assert w + [] == w;
  }

  /** `s.endswith(suffix)`. */
  predicate EndsWith(s: string, suffix: string) {
    |suffix| <= |s| && s[|s| - |suffix|..] == suffix
  }
}
