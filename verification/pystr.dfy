/**
 * The Python string operations the shell front end relies on: `str.isspace`,
 * `strip()`, `lstrip(chars)`, the `in` operator, `replace(old, "")`,
 * `split(sep)` and `sep.join(...)`, each defined left to right as Python
 * evaluates them.
 */
module PyStr {

  /** Python's `str.isspace()` for a single character. */
  predicate IsSpace(c: char) {
    var n := c as int;
    || (0x09 <= n <= 0x0D) || (0x1C <= n <= 0x20) || n == 0x85 || n == 0xA0 || n == 0x1680
    || (0x2000 <= n <= 0x200A) || n == 0x2028 || n == 0x2029 || n == 0x202F || n == 0x205F
    || n == 0x3000
  }

  predicate AllSpace(s: string) {
    forall k | 0 <= k < |s| :: IsSpace(s[k])
  }

  /** Neither end of s is whitespace: the shape `strip()` leaves behind. */
  predicate IsStripped(s: string) {
    s == [] || (!IsSpace(s[0]) && !IsSpace(s[|s| - 1]))
  }

  /** r occurs in s at offset i with nothing but whitespace around it. */
  predicate PaddedAt(s: string, r: string, i: int) {
    && 0 <= i <= |s| - |r|
    && s[i..i + |r|] == r
    && AllSpace(s[..i])
    && AllSpace(s[i + |r|..])
  }

  /** `s.lstrip()`: drops the leading whitespace. */
  function LStrip(s: string): (r: string)
    ensures |r| <= |s|
    ensures r == [] || !IsSpace(r[0])
    decreases |s|
  {
    if s != [] && IsSpace(s[0]) then LStrip(s[1..]) else s
  }

  /** `lstrip()` keeps a suffix and what it drops is whitespace. */
  lemma {:induction false} LStripDropsSpace(s: string)
    ensures LStrip(s) == s[|s| - |LStrip(s)|..]
    ensures AllSpace(s[..|s| - |LStrip(s)|])
    decreases |s|
  {
    if s != [] && IsSpace(s[0]) {
      var r := LStrip(s[1..]);
      LStripDropsSpace(s[1..]);
      assert s[1..][|s| - 1 - |r|..] == s[|s| - |r|..];
      assert s[..|s| - |r|] == [s[0]] + s[1..][..|s| - 1 - |r|];
    }
  }

  /** `s.rstrip()`: drops the trailing whitespace. */
  function RStrip(s: string): (r: string)
    ensures |r| <= |s|
    ensures r == [] || !IsSpace(r[|r| - 1])
    decreases |s|
  {
    if s != [] && IsSpace(s[|s| - 1]) then RStrip(s[..|s| - 1]) else s
  }

  /** `rstrip()` keeps a prefix and what it drops is whitespace. */
  lemma {:induction false} RStripDropsSpace(s: string)
    ensures RStrip(s) == s[..|RStrip(s)|]
    ensures AllSpace(s[|RStrip(s)|..])
    decreases |s|
  {
    if s != [] && IsSpace(s[|s| - 1]) {
      var r := RStrip(s[..|s| - 1]);
      RStripDropsSpace(s[..|s| - 1]);
      assert s[..|s| - 1][..|r|] == s[..|r|];
      assert s[|r|..] == s[..|s| - 1][|r|..] + [s[|s| - 1]];
    }
  }

  /** `s.strip()`: drops the whitespace at both ends. */
  function Strip(s: string): (r: string)
    ensures IsStripped(r)
    ensures |r| <= |s|
  {
    var l := LStrip(s);
    var r := RStrip(l);
    RStripDropsSpace(l);
    assert r != [] ==> r[0] == l[0];
    r
  }

  /** `strip()` cuts its result out of s with only whitespace around it. */
  lemma StripPaddedAt(s: string)
    ensures exists i :: PaddedAt(s, Strip(s), i)
  {
    var l := LStrip(s);
    var r := RStrip(l);
    var i := |s| - |l|;
    LStripDropsSpace(s);
    RStripDropsSpace(l);
    assert s[i..i + |r|] == r;
    assert s[i + |r|..] == l[|r|..];
    assert PaddedAt(s, r, i);
    assert Strip(s) == r;
  }

  /** What PaddedAt says, index by index. */
  lemma PaddingFacts(s: string, r: string, i: int)
    requires PaddedAt(s, r, i)
    ensures forall k | 0 <= k < i :: IsSpace(s[k])
    ensures forall k | i + |r| <= k < |s| :: IsSpace(s[k])
    ensures forall k | i <= k < i + |r| :: s[k] == r[k - i]
  {
    forall k | 0 <= k < i ensures IsSpace(s[k]) {
      assert s[..i][k] == s[k];
    }
    forall k | i + |r| <= k < |s| ensures IsSpace(s[k]) {
      assert s[i + |r|..][k - i - |r|] == s[k];
    }
    forall k | i <= k < i + |r| ensures s[k] == r[k - i] {
      assert s[i..i + |r|][k - i] == s[k];
    }
  }

  /** Whitespace padding determines its core: any stripped r padded into s is `s.strip()`. */
  lemma StripUnique(s: string, r: string, i: int)
    requires IsStripped(r) && PaddedAt(s, r, i)
    ensures Strip(s) == r
  {
    var r' := Strip(s);
    StripPaddedAt(s);
    var i' :| PaddedAt(s, r', i');
    PaddingFacts(s, r, i);
    PaddingFacts(s, r', i');
    if r == [] {
      assert r' == [];
    } else {
      assert r' != [];
      assert i == i';
      assert i + |r| == i' + |r'|;
    }
  }

  /** Whitespace around a stripped string is exactly what `strip()` removes. */
  lemma StripPadded(p: string, x: string, q: string)
    requires AllSpace(p) && AllSpace(q) && IsStripped(x)
    ensures Strip(p + x + q) == x
  {
    var s := p + x + q;
    assert s[..|p|] == p;
    assert s[|p|..|p| + |x|] == x;
    assert s[|p| + |x|..] == q;
    StripUnique(s, x, |p|);
  }

  /** `strip()` leaves a stripped string alone, so stripping twice is stripping once. */
  lemma StripFixed(x: string)
    ensures IsStripped(x) <==> Strip(x) == x
  {
    if IsStripped(x) {
      StripPadded([], x, []);
      assert [] + x + [] == x;
    }
  }

  /** `s.lstrip(c)`: drops every leading copy of c, and nothing else. */
  function LStripChar(s: string, c: char): (r: string)
    ensures |r| <= |s| && r == s[|s| - |r|..]
    ensures forall k | 0 <= k < |s| - |r| :: s[k] == c
    ensures r == [] || r[0] != c
    decreases |s|
  {
    if s != [] && s[0] == c then LStripChar(s[1..], c) else s
  }

  predicate StartsWith(s: string, p: string) {
    |p| <= |s| && s[..|p|] == p
  }

  /** Python's `sub in s`. */
  function Contains(s: string, sub: string): (b: bool)
    ensures b ==> |sub| <= |s|
    decreases |s|
  {
    StartsWith(s, sub) || (s != [] && Contains(s[1..], sub))
  }

  /** sub occurs in s starting at index i. */
  predicate OccursAt(s: string, sub: string, i: int) {
    0 <= i <= |s| - |sub| && s[i..i + |sub|] == sub
  }

  /** `sub in s` holds exactly when sub occurs at some index of s. */
  lemma {:induction false} ContainsOccurs(s: string, sub: string)
    ensures Contains(s, sub) <==> exists i :: OccursAt(s, sub, i)
    decreases |s|
  {
    if s != [] {
      ContainsOccurs(s[1..], sub);
      if Contains(s[1..], sub) {
        var i :| OccursAt(s[1..], sub, i);
        assert s[i + 1..i + 1 + |sub|] == s[1..][i..i + |sub|];
        assert OccursAt(s, sub, i + 1);
      }
      if i :| OccursAt(s, sub, i) {
        if i > 0 {
          assert s[1..][i - 1..i - 1 + |sub|] == s[i..i + |sub|];
          assert OccursAt(s[1..], sub, i - 1);
        } else {
          assert StartsWith(s, sub);
        }
      }
    }
    if StartsWith(s, sub) {
      assert OccursAt(s, sub, 0);
    }
  }

  /** Whatever a slice of s contains, s contains too. */
  lemma ContainsInSlice(s: string, i: int, j: int, sub: string)
    requires 0 <= i <= j <= |s|
    ensures Contains(s[i..j], sub) ==> Contains(s, sub)
  {
    ContainsOccurs(s[i..j], sub);
    if k :| OccursAt(s[i..j], sub, k) {
      assert s[i + k..i + k + |sub|] == sub by {
        forall t | 0 <= t < |sub| ensures s[i + k + t] == sub[t] {
          assert s[i..j][k..k + |sub|][t] == sub[t];
        }
      }
      assert OccursAt(s, sub, i + k);
      ContainsOccurs(s, sub);
    }
  }

  /** What s does not contain, `s.strip()` does not contain either. */
  lemma StripKeepsAbsence(s: string, sub: string)
    ensures !Contains(s, sub) ==> !Contains(Strip(s), sub)
  {
    var r := Strip(s);
    StripPaddedAt(s);
    var i :| PaddedAt(s, r, i);
    ContainsInSlice(s, i, i + |r|, sub);
  }

  /** Stripping every piece keeps a needle that no piece contains out of all of them. */
  lemma StripAllKeepsAbsence(pieces: seq<string>, sub: string)
    requires forall p <- pieces :: !Contains(p, sub)
    ensures forall r <- StripAll(pieces) :: IsStripped(r) && !Contains(r, sub)
  {
    var rs := StripAll(pieces);
    forall k | 0 <= k < |rs|
      ensures IsStripped(rs[k]) && !Contains(rs[k], sub)
    {
      StripAllAt(pieces, k);
      StripKeepsAbsence(pieces[k], sub);
    }
  }

  /** A non-empty needle can only be found where its first character occurs. */
  lemma ContainsFirstChar(s: string, sub: string)
    requires sub != []
    ensures Contains(s, sub) ==> sub[0] in s
  {
    ContainsOccurs(s, sub);
    if k :| OccursAt(s, sub, k) {
      assert s[k] == s[k..k + |sub|][0];
    }
  }

  /** `s.replace(pat, "")`: scanning left to right, deletes each occurrence of pat
      that does not overlap one already deleted. An empty pat changes nothing. */
  function RemoveAll(s: string, pat: string): (r: string)
    ensures |r| <= |s|
    decreases |s|
  {
    if pat == [] || |s| < |pat| then s
    else if StartsWith(s, pat) then
      RemoveAll(s[|pat|..], pat)
    else
      assert s == [s[0]] + s[1..];
      [s[0]] + RemoveAll(s[1..], pat)
  }

  /** Deleting a pattern that does not occur changes nothing. */
  lemma {:induction false} RemoveAllAbsent(s: string, pat: string)
    ensures !Contains(s, pat) ==> RemoveAll(s, pat) == s
    decreases |s|
  {
    if pat != [] && |s| >= |pat| && !Contains(s, pat) {
      RemoveAllAbsent(s[1..], pat);
      assert s == [s[0]] + s[1..];
    }
  }

  /** Deletion passes over a prefix that cannot start an occurrence. */
  lemma {:induction false} RemoveAllSkipsPrefix(a: string, b: string, pat: string)
    requires pat != [] && pat[0] !in a
    ensures RemoveAll(a + b, pat) == a + RemoveAll(b, pat)
    decreases |a|
  {
    if a == [] {
      assert a + b == b;
    } else if |a + b| < |pat| {
      assert RemoveAll(b, pat) == b;
    } else {
      var s := a + b;
      assert s[1..] == a[1..] + b;
      assert s[0] == a[0];
      RemoveAllKeepsFirst(s, pat);
      assert pat[0] !in a[1..];
      RemoveAllSkipsPrefix(a[1..], b, pat);
      assert a + RemoveAll(b, pat) == [a[0]] + (a[1..] + RemoveAll(b, pat));
    }
  }

  /** A text long enough for pat but not starting with pat's first character keeps that character. */
  lemma RemoveAllKeepsFirst(s: string, pat: string)
    requires pat != [] && |s| >= |pat| && s[0] != pat[0]
    ensures RemoveAll(s, pat) == [s[0]] + RemoveAll(s[1..], pat)
  {
    assert s[..|pat|][0] == s[0];
  }

  /** `s.split(sep)` for a non-empty sep (Python raises ValueError on an empty one):
      the pieces between the occurrences of sep found left to right, without overlap. */
  function Split(s: string, sep: string): (parts: seq<string>)
    requires sep != []
    ensures |parts| >= 1
    ensures StartsWith(s, parts[0])
    ensures forall p <- parts :: !Contains(p, sep)
    ensures !Contains(s, sep) ==> parts == [s]
    decreases |s|
  {
    if |s| < |sep| then [s]
    else if StartsWith(s, sep) then
      assert !Contains([], sep);
      [[]] + Split(s[|sep|..], sep)
    else
      var rest := Split(s[1..], sep);
      var first := [s[0]] + rest[0];
      assert first == s[..|first|];
      assert s == [s[0]] + s[1..];
      assert first[1..] == rest[0];
      assert !StartsWith(first, sep);
      [first] + rest[1..]
  }

  /** No piece of a split is longer than the text. */
  lemma {:induction false} SplitPiecesShort(s: string, sep: string)
    requires sep != []
    ensures forall p <- Split(s, sep) :: |p| <= |s|
    decreases |s|
  {
    if |s| < |sep| {
    } else if StartsWith(s, sep) {
      SplitPiecesShort(s[|sep|..], sep);
      assert Split(s, sep) == [[]] + Split(s[|sep|..], sep);
    } else {
      var rest := Split(s[1..], sep);
      SplitPiecesShort(s[1..], sep);
      assert Split(s, sep) == [[s[0]] + rest[0]] + rest[1..];
      assert forall p <- rest[1..] :: p in rest;
    }
  }

  /** `sep.join(xs)`. */
  function Join(xs: seq<string>, sep: string): string
    decreases |xs|
  {
    if xs == [] then []
    else if |xs| == 1 then xs[0]
    else xs[0] + sep + Join(xs[1..], sep)
  }

  /** Joining the pieces of a split with the same separator gives back the text. */
  lemma {:induction false} JoinSplit(s: string, sep: string)
    requires sep != []
    ensures Join(Split(s, sep), sep) == s
    decreases |s|
  {
    if |s| < |sep| {
    } else if StartsWith(s, sep) {
      var rest := Split(s[|sep|..], sep);
      JoinSplit(s[|sep|..], sep);
      assert Split(s, sep) == [[]] + rest;
      JoinAfterEmpty(rest, sep);
      assert s == sep + s[|sep|..];
    } else {
      var rest := Split(s[1..], sep);
      JoinSplit(s[1..], sep);
      assert Split(s, sep) == [[s[0]] + rest[0]] + rest[1..];
      JoinExtendFirst(s[0], rest, sep);
      assert s == [s[0]] + s[1..];
    }
  }

  /** Joining after an empty first piece puts one separator in front. */
  lemma JoinAfterEmpty(rest: seq<string>, sep: string)
    requires |rest| >= 1
    ensures Join([[]] + rest, sep) == sep + Join(rest, sep)
  {
    assert ([[]] + rest)[1..] == rest;
  }

  /** Extending the first piece by a character extends the joined text by it. */
  lemma JoinExtendFirst(c: char, rest: seq<string>, sep: string)
    requires |rest| >= 1
    ensures Join([[c] + rest[0]] + rest[1..], sep) == [c] + Join(rest, sep)
  {
    var parts := [[c] + rest[0]] + rest[1..];
    if |rest| > 1 {
      assert parts[1..] == rest[1..];
      assert Join(parts, sep) == ([c] + rest[0]) + sep + Join(rest[1..], sep);
      assert Join(rest, sep) == rest[0] + sep + Join(rest[1..], sep);
    }
  }

  /** `s.replace(pat, "")` is `"".join(s.split(pat))`. */
  lemma {:induction false} RemoveAllIsJoinedSplit(s: string, pat: string)
    requires pat != []
    ensures RemoveAll(s, pat) == Join(Split(s, pat), [])
    decreases |s|
  {
    if |s| < |pat| {
    } else if StartsWith(s, pat) {
      RemoveAllIsJoinedSplit(s[|pat|..], pat);
    } else {
      var rest := Split(s[1..], pat);
      RemoveAllIsJoinedSplit(s[1..], pat);
      if |rest| > 1 {
        assert ([s[0]] + rest[0]) + [] + Join(rest[1..], [])
            == [s[0]] + (rest[0] + [] + Join(rest[1..], []));
      }
    }
  }

  /** A piece that no occurrence of sep starts inside comes out of the split whole. */
  lemma {:induction false} SplitAfterPiece(a: string, sep: string, b: string)
    requires sep != []
    requires forall i | 0 <= i < |a| :: !StartsWith((a + sep + b)[i..], sep)
    ensures Split(a + sep + b, sep) == [a] + Split(b, sep)
    decreases |a|
  {
    var s := a + sep + b;
    if a == [] {
      assert s == sep + b;
      assert s[|sep|..] == b;
    } else {
      assert !StartsWith(s[0..], sep);
      assert s[1..] == a[1..] + sep + b;
      forall i | 0 <= i < |a[1..]|
        ensures !StartsWith((a[1..] + sep + b)[i..], sep)
      {
        assert (a[1..] + sep + b)[i..] == s[i + 1..];
      }
      SplitAfterPiece(a[1..], sep, b);
      assert [s[0]] + a[1..] == a;
    }
  }

  /** A piece without the separator's first character comes out of the split whole. */
  lemma SplitAfterPlainPiece(a: string, sep: string, b: string)
    requires sep != [] && sep[0] !in a
    ensures Split(a + sep + b, sep) == [a] + Split(b, sep)
  {
    forall i | 0 <= i < |a|
      ensures !StartsWith((a + sep + b)[i..], sep)
    {
      assert (a + sep + b)[i..][0] == a[i];
    }
    SplitAfterPiece(a, sep, b);
  }

  /** Each element stripped, as the list comprehension `[x.strip() for x in xs]`. */
  function StripAll(xs: seq<string>): (ys: seq<string>)
    ensures |ys| == |xs|
    decreases |xs|
  {
    if xs == [] then [] else [Strip(xs[0])] + StripAll(xs[1..])
  }

  /** The k-th stripped element is the k-th element, stripped. */
  lemma {:induction false} StripAllAt(xs: seq<string>, k: int)
    requires 0 <= k < |xs|
    ensures StripAll(xs)[k] == Strip(xs[k])
    decreases |xs|
  {
    var t := xs[1..];
    assert StripAll(xs) == [Strip(xs[0])] + StripAll(t);
    if k > 0 {
      StripAllAt(t, k - 1);
      assert t[k - 1] == xs[k];
    }
  }

  /** Stripping a one-element list. */
  lemma StripAllSingle(x: string)
    ensures StripAll([x]) == [Strip(x)]
  {
    assert [x][1..] == [];
  }

  /** Stripping a list that starts with x. */
  lemma StripAllCons(x: string, xs: seq<string>)
    ensures StripAll([x] + xs) == [Strip(x)] + StripAll(xs)
  {
    assert ([x] + xs)[0] == x;
    assert ([x] + xs)[1..] == xs;
  }

  /** Stripping a two-element list. */
  lemma StripAllPair(x: string, y: string)
    ensures StripAll([x, y]) == [Strip(x), Strip(y)]
  {
    StripAllCons(x, [y]);
    StripAllSingle(y);
    assert [x, y] == [x] + [y];
  }
}
