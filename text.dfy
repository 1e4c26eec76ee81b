/** The few operations on Python `str` values that the modelled code relies on:
    searching, `split`, `join`, `strip`, `replace(p, "")`, `upper()`,
    `os.path.basename`, `os.path.splitext`, `int()` and `str(int)`.
    Strings are sequences of code points. */
module Text {
  import opened Wrappers

  // ---------------------------------------------------------------------------
  // Searching

  /** `sub` occurs in `s` starting at index `i`. */
  predicate OccursAt(s: string, sub: string, i: nat)
  {
    i + |sub| <= |s| && s[i..i + |sub|] == sub
  }

  /** First index at or after `from` where `sub` occurs (Python `str.find`). */
  function IndexFrom(s: string, sub: string, from: nat): (r: Option<nat>)
    ensures r.Some? ==> from <= r.value && OccursAt(s, sub, r.value)
    ensures r.Some? ==> forall k :: from <= k < r.value ==> !OccursAt(s, sub, k)
    ensures r.None? ==> forall k: nat :: from <= k ==> !OccursAt(s, sub, k)
    decreases |s| - from
  {
    if from + |sub| > |s| then None
    else if s[from..from + |sub|] == sub then Some(from)
    else IndexFrom(s, sub, from + 1)
  }

  /** First occurrence of `sub` in `s`, if any. */
  function IndexOf(s: string, sub: string): (r: Option<nat>)
  {
    IndexFrom(s, sub, 0)
  }

  /** Python `sub in s`. */
  predicate Contains(s: string, sub: string)
  {
    IndexOf(s, sub).Some?
  }

  lemma {:induction false} ContainsAt(s: string, sub: string, i: nat)
    requires OccursAt(s, sub, i)
    ensures Contains(s, sub)
  {
  }

  /** Last occurrence of `sub` in `s` (Python `str.rfind`), searching below `upto`. */
  function LastIndexBelow(s: string, sub: string, upto: nat): (r: Option<nat>)
    ensures r.Some? ==> r.value < upto && OccursAt(s, sub, r.value)
    ensures r.Some? ==> forall k :: r.value < k < upto ==> !OccursAt(s, sub, k)
    ensures r.None? ==> forall k: nat :: k < upto ==> !OccursAt(s, sub, k)
  {
    if upto == 0 then None
    else if OccursAt(s, sub, upto - 1) then Some(upto - 1)
    else LastIndexBelow(s, sub, upto - 1)
  }

  function LastIndexOf(s: string, sub: string): (r: Option<nat>)
  {
    LastIndexBelow(s, sub, |s| + 1)
  }

  // ---------------------------------------------------------------------------
  // split and join

  /** Python `s.split(sep)` for a non-empty separator. */
  function Split(s: string, sep: string): (parts: seq<string>)
    requires sep != []
    ensures |parts| >= 1
    decreases |s|
  {
    match IndexOf(s, sep)
    case None => [s]
    case Some(i) => [s[..i]] + Split(s[i + |sep|..], sep)
  }

  /** An occurrence with none before it is the first one. */
  lemma {:induction false} FirstOccurrence(s: string, sub: string, i: nat)
    requires OccursAt(s, sub, i)
    requires forall k: nat :: k < i ==> !OccursAt(s, sub, k)
    ensures IndexOf(s, sub) == Some(i)
  {
  }

  /** Splitting at a first occurrence of `sep` that follows `a`. */
  lemma {:induction false} SplitAt(a: string, sep: string, b: string)
    requires sep != [] && IndexOf(a + sep + b, sep) == Some(|a|)
    ensures Split(a + sep + b, sep) == [a] + Split(b, sep)
  {
    var s := a + sep + b;
    assert s[..|a|] == a;
    assert s[|a| + |sep|..] == b;
  }

  /** The last piece of `s.split(c)` is the text after the last `c`. */
  lemma {:induction false} SplitLastPiece(x: string, c: char, y: string)
    requires c !in y
    ensures var parts := Split(x + [c] + y, [c]); parts[|parts| - 1] == y
    decreases |x|
  {
    var s := x + [c] + y;
    assert OccursAt(s, [c], |x|) by { assert s[|x|..|x| + 1] == [c]; }
    var i := IndexOf(s, [c]).value;
    FirstSepAt(x, c, y, i);
    assert Split(s, [c]) == [s[..i]] + Split(s[i + 1..], [c]);
    if i == |x| {
      SplitNoSep(y, c);
    } else {
      SplitLastPiece(x[i + 1..], c, y);
    }
  }

  lemma {:induction false} FirstSepAt(x: string, c: char, y: string, i: nat)
    requires IndexOf(x + [c] + y, [c]) == Some(i)
    ensures i <= |x|
    ensures i == |x| ==> (x + [c] + y)[i + 1..] == y
    ensures i < |x| ==> (x + [c] + y)[i + 1..] == x[i + 1..] + [c] + y
  {
    var s := x + [c] + y;
    assert OccursAt(s, [c], |x|) by { assert s[|x|..|x| + 1] == [c]; }
    assert IndexFrom(s, [c], 0) == Some(i);
  }

  /** A text without `c` splits into itself alone. */
  lemma {:induction false} SplitNoSep(y: string, c: char)
    requires c !in y
    ensures Split(y, [c]) == [y]
  {
    forall k: nat | k + 1 <= |y| ensures !OccursAt(y, [c], k) {
      assert y[k..k + 1][0] == y[k];
    }
    assert IndexOf(y, [c]).None?;
  }

  /** `s.split(c)` has at least two pieces exactly when `c` occurs in `s`. */
  lemma {:induction false} SplitInTwo(s: string, c: char)
    ensures |Split(s, [c])| >= 2 <==> c in s
  {
    if c in s {
      var k :| 0 <= k < |s| && s[k] == c;
      assert OccursAt(s, [c], k) by { assert s[k..k + 1] == [c]; }
    } else {
      SplitNoSep(s, c);
    }
  }

  /** An occurrence of `sub` starts with its first character, so it can only
      start where that character stands. */
  lemma {:induction false} OccursOnlyAt(s: string, sub: string, i: nat, p: nat)
    requires sub != [] && OccursAt(s, sub, i)
    requires forall k :: 0 <= k < |s| && s[k] == sub[0] ==> k == p
    ensures i == p
  {
    assert s[i..i + |sub|][0] == s[i];
  }

  /** A text splits at the first `sep` that follows a part without it. */
  lemma {:induction false} SplitPair(a: string, c: char, b: string)
    requires c !in a && c !in b
    ensures Split(a + [c] + b, [c]) == [a, b]
  {
    var s := a + [c] + b;
    assert OccursAt(s, [c], |a|) by { assert s[|a|..|a| + 1] == [c]; }
    forall k: nat | k < |a| ensures !OccursAt(s, [c], k) {
      assert s[k..k + 1][0] == a[k];
    }
    FirstOccurrence(s, [c], |a|);
    SplitAt(a, [c], b);
    SplitNoSep(b, c);
  }

  /** Python `sep.join(parts)`. */
  function Join(parts: seq<string>, sep: string): string
  {
    if |parts| == 0 then ""
    else if |parts| == 1 then parts[0]
    else parts[0] + sep + Join(parts[1..], sep)
  }

  /** Joining the pieces of a split gives the original text back. */
  lemma {:induction false} JoinSplit(s: string, sep: string)
    requires sep != []
    ensures Join(Split(s, sep), sep) == s
    decreases |s|
  {
    var idx := IndexOf(s, sep);
    if idx.Some? {
      var i := idx.value;
      var rest := s[i + |sep|..];
      JoinSplit(rest, sep);
      var tail := Split(rest, sep);
      assert Split(s, sep) == [s[..i]] + tail;
      JoinCons(s[..i], tail, sep);
      Around(s, sep, i);
    }
  }

  /** The text around an occurrence of `sep`. */
  lemma {:induction false} Around(s: string, sep: string, i: nat)
    requires OccursAt(s, sep, i)
    ensures s == s[..i] + sep + s[i + |sep|..]
  {
    assert s == s[..i] + s[i..i + |sep|] + s[i + |sep|..];
  }

  lemma {:induction false} JoinCons(head: string, tail: seq<string>, sep: string)
    requires tail != []
    ensures Join([head] + tail, sep) == head + sep + Join(tail, sep)
  {
    var parts := [head] + tail;
    assert parts[0] == head && parts[1..] == tail;
  }

  /** No piece of a split contains the separator. */
  lemma {:induction false} SplitPiecesFree(s: string, sep: string)
    requires sep != []
    ensures forall p :: p in Split(s, sep) ==> !Contains(p, sep)
    decreases |s|
  {
    match IndexOf(s, sep)
    case None =>
    case Some(i) =>
      SplitPiecesFree(s[i + |sep|..], sep);
      HeadFree(s, sep, i);
      assert Split(s, sep) == [s[..i]] + Split(s[i + |sep|..], sep);
  }

  /** The text before the first occurrence holds no occurrence. */
  lemma {:induction false} HeadFree(s: string, sep: string, i: nat)
    requires sep != [] && IndexOf(s, sep) == Some(i)
    ensures !Contains(s[..i], sep)
  {
    var head := s[..i];
    forall k: nat ensures !OccursAt(head, sep, k) {
      if k + |sep| <= |head| {
        assert !OccursAt(s, sep, k);
        assert head[k..k + |sep|] == s[k..k + |sep|];
      }
    }
  }

  /** The first piece of `s.split(sep)` is the text before the first
      occurrence of `sep` (all of `s` when there is none); this is also
      `s.split(sep, 1)[0]`. */
  function BeforeFirst(s: string, sep: string): (r: string)
    requires sep != []
    ensures r == Split(s, sep)[0]
    ensures IsPrefix(r, s) && !Contains(r, sep)
    ensures Contains(s, sep) <==> OccursAt(s, sep, |r|)
  {
    SplitPiecesFree(s, sep);
    match IndexOf(s, sep)
    case None => s
    case Some(i) => s[..i]
  }

  /** Python `s.rsplit(sep, 1)[0]`: the text before the last occurrence of
      `sep`, or all of `s` when there is none. */
  function BeforeLast(s: string, sep: string): (r: string)
    requires sep != []
    ensures IsPrefix(r, s)
    ensures Contains(s, sep) ==> OccursAt(s, sep, |r|) &&
                                  forall k :: |r| < k ==> !OccursAt(s, sep, k)
    ensures !Contains(s, sep) ==> r == s
  {
    match LastIndexOf(s, sep)
    case None =>
      assert Contains(s, sep) ==> OccursAt(s, sep, IndexOf(s, sep).value);
      s
    case Some(i) =>
      ContainsAt(s, sep, i);
      s[..i]
  }

  /** Python `s.split(sep, 1)[1]`: the text after the first occurrence of
      `sep`. */
  function AfterFirst(s: string, sep: string): (r: string)
    requires sep != [] && Contains(s, sep)
    ensures s == BeforeFirst(s, sep) + sep + r
  {
    var i := IndexOf(s, sep).value;
    Around(s, sep, i);
    s[i + |sep|..]
  }

  /** Python `s.rsplit(sep, 1)[-1]`: the text after the last occurrence of
      `sep`, or all of `s` when there is none. */
  function AfterLast(s: string, sep: string): (r: string)
    requires sep != []
    ensures Contains(s, sep) ==> s == BeforeLast(s, sep) + sep + r
    ensures !Contains(s, sep) ==> r == s
  {
    match LastIndexOf(s, sep)
    case None =>
      assert Contains(s, sep) ==> OccursAt(s, sep, IndexOf(s, sep).value);
      s
    case Some(i) =>
      Around(s, sep, i);
      s[i + |sep|..]
  }

  /** The second piece of `s.split(sep)` is the text between the first and
      the second occurrence of `sep`. */
  lemma {:induction false} SplitSecond(s: string, sep: string)
    requires sep != [] && Contains(s, sep)
    ensures |Split(s, sep)| >= 2 && Split(s, sep)[1] == BeforeFirst(AfterFirst(s, sep), sep)
  {
    var i := IndexOf(s, sep).value;
    assert Split(s, sep) == [s[..i]] + Split(s[i + |sep|..], sep);
  }

  /** The last piece of `s.split(c)` is the text after the last `c`, as
      `s.rsplit(c, 1)[-1]` gives it. */
  lemma {:induction false} SplitLastIsAfterLast(s: string, c: char)
    ensures var parts := Split(s, [c]); parts[|parts| - 1] == AfterLast(s, [c])
  {
    if Contains(s, [c]) {
      var x := BeforeLast(s, [c]);
      var y := AfterLast(s, [c]);
      forall k | 0 <= k < |y| ensures y[k] != c {
        if y[k] == c {
          assert s[|x| + 1 + k..|x| + 2 + k] == [c];
          assert OccursAt(s, [c], |x| + 1 + k);
        }
      }
      SplitLastPiece(x, c, y);
    } else {
      forall k | 0 <= k < |s| ensures s[k] != c {
        if s[k] == c {
          assert s[k..k + 1] == [c];
          ContainsAt(s, [c], k);
        }
      }
      SplitNoSep(s, c);
    }
  }

  predicate IsPrefix(p: string, s: string)
  {
    |p| <= |s| && s[..|p|] == p
  }

  // ---------------------------------------------------------------------------
  // strip and replace

  /** Python `str.isspace` for one character. */
  predicate IsSpace(c: char)
  {
    c == ' ' || ('\t' <= c <= '\r') || ('\U{1c}' <= c <= '\U{1f}') ||
    c == '\U{85}' || c == '\U{a0}' || c == '\U{1680}' ||
    ('\U{2000}' <= c <= '\U{200a}') || c == '\U{2028}' || c == '\U{2029}' ||
    c == '\U{202f}' || c == '\U{205f}' || c == '\U{3000}'
  }

  function StripLeft(s: string): (r: string)
    ensures |r| <= |s| && r == s[|s| - |r|..]
    ensures r != [] ==> !IsSpace(r[0])
    ensures forall k :: 0 <= k < |s| - |r| ==> IsSpace(s[k])
  {
    if s != [] && IsSpace(s[0]) then
      var r := StripLeft(s[1..]);
      assert s[1..][|s| - 1 - |r|..] == s[|s| - |r|..];
      r
    else s
  }

  function StripRight(s: string): (r: string)
    ensures |r| <= |s| && r == s[..|r|]
    ensures r != [] ==> !IsSpace(r[|r| - 1])
    ensures forall k :: |r| <= k < |s| ==> IsSpace(s[k])
  {
    if s != [] && IsSpace(s[|s| - 1]) then StripRight(s[..|s| - 1]) else s
  }

  /** Python `s.strip()`: `s` without its leading and trailing whitespace. */
  function Strip(s: string): (r: string)
    ensures |r| <= |s|
    ensures r != [] ==> !IsSpace(r[0]) && !IsSpace(r[|r| - 1])
  {
    StripRight(StripLeft(s))
  }

  /** Python `s.strip(c)` for a single character `c`. */
  function StripChar(s: string, c: char): (r: string)
    ensures |r| <= |s|
    ensures r != [] ==> r[0] != c && r[|r| - 1] != c
  {
    if s != [] && s[0] == c then StripChar(s[1..], c)
    else if s != [] && s[|s| - 1] == c then StripChar(s[..|s| - 1], c)
    else s
  }

  /** Python `s.replace(pat, "")`: occurrences are removed left to right
      without overlapping, and what the removal brings together is not
      scanned again. */
  function RemoveAll(s: string, pat: string): string
    requires pat != []
    decreases |s|
  {
    if |s| < |pat| then s
    else if s[..|pat|] == pat then RemoveAll(s[|pat|..], pat)
    else [s[0]] + RemoveAll(s[1..], pat)
  }

  const Fence: string := "```"

  /** Three back-quotes start at index `k` of `t`. */
  predicate FenceAt(t: string, k: nat)
  {
    k + 3 <= |t| && t[k] == '`' && t[k + 1] == '`' && t[k + 2] == '`'
  }

  lemma {:induction false} FenceAtOccurs(t: string, k: nat)
    ensures FenceAt(t, k) <==> OccursAt(t, Fence, k)
  {
    if FenceAt(t, k) {
      assert t[k..k + 3] == Fence;
    }
  }

  /** What `replace` of fences leaves starts with a back-quote only if the
      original text did. */
  lemma {:induction false} RemoveFenceHead1(t: string)
    requires RemoveAll(t, Fence) != [] && RemoveAll(t, Fence)[0] == '`'
    ensures t != [] && t[0] == '`'
    decreases |t|
  {
    FenceAtOccurs(t, 0);
    if |t| >= 3 && FenceAt(t, 0) {
    } else if |t| >= 3 {
      assert RemoveAll(t, Fence) == [t[0]] + RemoveAll(t[1..], Fence);
    }
  }

  /** ... and starts with two back-quotes only if the original did. */
  lemma {:induction false} RemoveFenceHead2(t: string)
    requires |RemoveAll(t, Fence)| >= 2 && RemoveAll(t, Fence)[0] == '`' && RemoveAll(t, Fence)[1] == '`'
    ensures |t| >= 2 && t[0] == '`' && t[1] == '`'
    decreases |t|
  {
    FenceAtOccurs(t, 0);
    if |t| >= 3 && FenceAt(t, 0) {
    } else if |t| >= 3 {
      var rest := RemoveAll(t[1..], Fence);
      assert RemoveAll(t, Fence) == [t[0]] + rest;
      assert rest[0] == RemoveAll(t, Fence)[1];
      RemoveFenceHead1(t[1..]);
    }
  }

  lemma {:induction false} RemoveFenceNoFenceAt(s: string)
    ensures forall k: nat :: !FenceAt(RemoveAll(s, Fence), k)
    decreases |s|
  {
    FenceAtOccurs(s, 0);
    var r := RemoveAll(s, Fence);
    if |s| < 3 {
    } else if FenceAt(s, 0) {
      RemoveFenceNoFenceAt(s[3..]);
    } else {
      var rest := RemoveAll(s[1..], Fence);
      RemoveFenceNoFenceAt(s[1..]);
      assert r == [s[0]] + rest;
      forall k: nat | FenceAt(r, k)
        ensures false
      {
        if k == 0 {
          RemoveFenceHead2(s[1..]);
        } else {
          assert FenceAt(rest, k - 1);
        }
      }
    }
  }

  /** Removing every "```" leaves no "```" behind. */
  lemma {:induction false} RemoveFenceLeavesNone(s: string)
    ensures !Contains(RemoveAll(s, Fence), Fence)
  {
    var r := RemoveAll(s, Fence);
    RemoveFenceNoFenceAt(s);
    if Contains(r, Fence) {
      FenceAtOccurs(r, IndexOf(r, Fence).value);
    }
  }

  // ---------------------------------------------------------------------------
  // Paths (POSIX `os.path`)

  /** `os.path.basename`: the text after the last '/'. */
  function Basename(p: string): (r: string)
    ensures '/' !in r
    ensures IsSuffix(r, p)
  {
    if p == [] then []
    else if p[|p| - 1] == '/' then []
    else Basename(p[..|p| - 1]) + [p[|p| - 1]]
  }

  predicate IsSuffix(t: string, s: string)
  {
    |t| <= |s| && s[|s| - |t|..] == t
  }

  /** The index of the dot that starts the extension of the last path
      component, as `os.path.splitext` finds it: the last '.', provided it
      comes after the last '/' and something other than a dot stands
      between them. */
  function ExtDot(p: string): (r: Option<nat>)
    ensures r.Some? ==> r.value < |p| && p[r.value] == '.'
  {
    match LastIndexOf(p, ".")
    case None => None
    case Some(d) =>
      var start := match LastIndexOf(p, "/") case None => 0 case Some(q) => q + 1;
      if start <= d && exists k :: start <= k < d && p[k] != '.' then Some(d) else None
  }

  /** `os.path.splitext(p)[0]`. */
  function StripExt(p: string): (r: string)
    ensures IsPrefix(r, p)
  {
    match ExtDot(p)
    case None => p
    case Some(d) => p[..d]
  }

  /** The last component of a path ending in `name` is `name`. */
  lemma {:induction false} BasenameAfterSlash(dir: string, name: string)
    requires '/' !in name
    ensures Basename(dir + "/" + name) == name
    decreases |name|
  {
    var p := dir + "/" + name;
    if name != [] {
      var init := name[..|name| - 1];
      assert p[..|p| - 1] == dir + "/" + init;
      BasenameAfterSlash(dir, init);
      assert init + [name[|name| - 1]] == name;
    }
  }

  /** The last occurrence is the one with none after it. */
  lemma {:induction false} LastOccurrence(s: string, sub: string, i: nat)
    requires OccursAt(s, sub, i)
    requires forall k: nat :: i < k ==> !OccursAt(s, sub, k)
    ensures LastIndexOf(s, sub) == Some(i)
  {
  }

  /** `os.path.splitext` of a name `x.e` without further dots in `e` and no
      directory part gives back `x`. */
  lemma {:induction false} StripExtOf(x: string, e: string)
    requires x != [] && x[|x| - 1] != '.' && '/' !in x && '/' !in e && '.' !in e
    ensures StripExt(x + "." + e) == x
  {
    var p := x + "." + e;
    var d := |x|;
    assert OccursAt(p, ".", d) by { assert p[d..d + 1] == "."; }
    forall k: nat | d < k ensures !OccursAt(p, ".", k) {
      if k + 1 <= |p| {
        assert p[k..k + 1][0] == e[k - d - 1];
      }
    }
    LastOccurrence(p, ".", d);
    forall k: nat ensures !OccursAt(p, "/", k) {
      if k + 1 <= |p| {
        assert p[k..k + 1][0] == p[k];
        if k < d {
          assert p[k] == x[k];
        } else if k > d {
          assert p[k] == e[k - d - 1];
        }
      }
    }
    assert LastIndexOf(p, "/").None?;
    assert p[d - 1] != '.';
    assert p[..d] == x;
  }

  /** `os.path.join(a, b)` when `b` is relative. */
  function PathJoin(a: string, b: string): string
  {
    if a == [] || a[|a| - 1] == '/' then a + b else a + "/" + b
  }

  // ---------------------------------------------------------------------------
  // Digits and integers

  predicate IsDigit(c: char)
  {
    '0' <= c <= '9'
  }

  predicate AllDigits(s: string)
  {
    forall k :: 0 <= k < |s| ==> IsDigit(s[k])
  }

  function DigitValue(c: char): nat
    requires IsDigit(c)
  {
    c as int - '0' as int
  }

  function Pow10(n: nat): (r: nat)
    ensures r >= 1
  {
    if n == 0 then 1 else 10 * Pow10(n - 1)
  }

  /** The number a run of decimal digits denotes. */
  function DigitsValue(s: string): (r: nat)
    requires AllDigits(s)
    ensures r < Pow10(|s|)
  {
    if s == [] then 0 else 10 * DigitsValue(s[..|s| - 1]) + DigitValue(s[|s| - 1])
  }

  /** Python `str(n)` for a natural number. */
  function NatToString(n: nat): (r: string)
    ensures r != [] && AllDigits(r)
  {
    if n < 10 then ['0' + n as char]
    else NatToString(n / 10) + ['0' + (n % 10) as char]
  }

  /** The digits `str` produces read back as the same number. */
  lemma {:induction false} NatToStringValue(n: nat)
    ensures DigitsValue(NatToString(n)) == n
  {
    if n >= 10 {
      NatToStringValue(n / 10);
      var s := NatToString(n);
      assert s[..|s| - 1] == NatToString(n / 10);
    }
  }

  /** Python `str(i)`. */
  function IntToString(i: int): (r: string)
  {
    if i < 0 then "-" + NatToString(-i) else NatToString(i)
  }

  /** Python `int(s)` for ASCII text: surrounding whitespace, an optional
      sign, then one or more decimal digits. */
  function ParseInt(s: string): (r: Option<int>)
    ensures r.Some? ==> (var t := Strip(s); t != [] && (if t[0] == '-' then AllDigits(t[1..]) && r.value == 0 - DigitsValue(t[1..])
       else if t[0] == '+' then AllDigits(t[1..]) && r.value == DigitsValue(t[1..])
       else AllDigits(t) && r.value == DigitsValue(t)))
  {
    var t := Strip(s);
    if t == [] then None
    else if t[0] == '-' || t[0] == '+' then
      var body := t[1..];
      if body != [] && AllDigits(body) then
        Some(if t[0] == '-' then 0 - DigitsValue(body) else DigitsValue(body))
      else None
    else if AllDigits(t) then Some(DigitsValue(t))
    else None
  }

  /** `int(str(i)) == i`. */
  lemma {:induction false} ParseIntToString(i: int)
    ensures ParseInt(IntToString(i)) == Some(i)
  {
    var s := IntToString(i);
    NatToStringValue(if i < 0 then -i else i);
    StripIntToString(i);
    if i < 0 {
      assert s[1..] == NatToString(-i);
    }
  }

  /** A number's text has no surrounding whitespace. */
  lemma {:induction false} StripIntToString(i: int)
    ensures Strip(IntToString(i)) == IntToString(i)
  {
    var s := IntToString(i);
    var d := NatToString(if i < 0 then -i else i);
    assert StripLeft(s) == s by {
      assert !IsSpace(s[0]);
    }
    assert StripRight(s) == s by {
      assert s[|s| - 1] == d[|d| - 1];
      assert !IsSpace(s[|s| - 1]);
    }
  }

  // ---------------------------------------------------------------------------
  // Case

  /** Python `str.upper` on ASCII letters; other characters are kept. */
  function UpperChar(c: char): char
  {
    if 'a' <= c <= 'z' then (c as int - 32) as char else c
  }

  function Upper(s: string): (r: string)
    ensures |r| == |s|
    ensures forall k :: 0 <= k < |s| ==> r[k] == UpperChar(s[k])
  {
    if s == [] then [] else [UpperChar(s[0])] + Upper(s[1..])
  }

  /** Python `s.replace(c, "")` for one character. */
  function RemoveChar(s: string, c: char): (r: string)
    ensures c !in r
    ensures |r| <= |s|
  {
    if s == [] then [] else (if s[0] == c then [] else [s[0]]) + RemoveChar(s[1..], c)
  }

  /** Removing a character keeps every other character and adds none. */
  lemma {:induction false} RemoveCharIn(s: string, c: char)
    ensures forall x :: x in RemoveChar(s, c) <==> x in s && x != c
  {
    if s != [] {
      RemoveCharIn(s[1..], c);
      assert s == [s[0]] + s[1..];
    }
  }
}
