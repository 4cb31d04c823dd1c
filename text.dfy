/** The parts of Python's `str` and sequence semantics that the modelled scripts rely on:
    `lower()`, `split()`, `split(sep)`, `sep.join(...)`, `strip()`, `lstrip(c)`, `rstrip(c)`,
    the `in` operator on strings, `count`, `replace(p, "")`, and slicing with possibly
    negative bounds. Case mapping covers ASCII letters only. */
module PyText {

  // ---------------------------------------------------------------------------
  // Characters
  // ---------------------------------------------------------------------------

  predicate IsUpperChar(c: char) { 'A' <= c <= 'Z' }

  predicate IsLowerChar(c: char) { 'a' <= c <= 'z' }

  /** `str.isspace()` for one character: the characters Python's `str.split()` and
      `str.strip()` treat as whitespace. */
  predicate IsSpace(c: char)
  {
    var n := c as int;
    n == 0x20 || 0x09 <= n <= 0x0D || 0x1C <= n <= 0x1F || n == 0x85 || n == 0xA0
    || n == 0x1680 || 0x2000 <= n <= 0x200A || n == 0x2028 || n == 0x2029
    || n == 0x202F || n == 0x205F || n == 0x3000
  }

  function LowerChar(c: char): char
  {
    if IsUpperChar(c) then (c as int + 32) as char else c
  }

  function UpperChar(c: char): char
  {
    if IsLowerChar(c) then (c as int - 32) as char else c
  }

  // ---------------------------------------------------------------------------
  // lower()
  // ---------------------------------------------------------------------------

  /** `s.lower()`. */
  function Lower(s: string): (r: string)
    ensures |r| == |s|
    ensures forall i :: 0 <= i < |s| ==> r[i] == LowerChar(s[i])
  {
    seq(|s|, i requires 0 <= i < |s| => LowerChar(s[i]))
  }

  /** Lowering twice is lowering once. */
  lemma LowerIdempotent(s: string)
    ensures Lower(Lower(s)) == Lower(s)
  {
    var a, b := Lower(Lower(s)), Lower(s);
    assert |a| == |b|;
    forall i | 0 <= i < |a| ensures a[i] == b[i] {
      assert b[i] == LowerChar(s[i]);
    }
  }

  /** A string without upper-case letters is its own lower-case form. */
  lemma LowerOfLowerCase(s: string)
    requires forall i :: 0 <= i < |s| ==> !IsUpperChar(s[i])
    ensures Lower(s) == s
  {
  }

  // ---------------------------------------------------------------------------
  // The `in` operator on strings, startswith, endswith
  // ---------------------------------------------------------------------------

  /** `k` occurs in `s` at offset `i`, compared character by character from `k[j]` on. */
  predicate MatchAt(s: string, k: string, i: nat, j: nat)
    requires i + |k| <= |s| && j <= |k|
    decreases |k| - j
  {
    j == |k| || (s[i + j] == k[j] && MatchAt(s, k, i, j + 1))
  }

  lemma MatchAtIsSlice(s: string, k: string, i: nat, j: nat)
    requires i + |k| <= |s| && j <= |k|
    ensures MatchAt(s, k, i, j) <==> s[i + j..i + |k|] == k[j..]
    decreases |k| - j
  {
    if j < |k| {
      MatchAtIsSlice(s, k, i, j + 1);
      assert s[i + j..i + |k|] == [s[i + j]] + s[i + j + 1..i + |k|];
      assert k[j..] == [k[j]] + k[j + 1..];
    }
  }

  /** `k` occurs in `s` at some offset `i` or later. */
  predicate ContainsFrom(s: string, k: string, i: nat)
    decreases |s| - i
  {
    i + |k| <= |s| && (MatchAt(s, k, i, 0) || ContainsFrom(s, k, i + 1))
  }

  /** Python's `k in s` for strings: substring containment (the empty string is in every string). */
  predicate Contains(s: string, k: string)
  {
    ContainsFrom(s, k, 0)
  }

  /** The slice of `s` at offset `p` is `k`. */
  ghost predicate SliceIs(s: string, p: int, k: string)
  {
    0 <= p && p + |k| <= |s| && s[p..p + |k|] == k
  }

  /** Independent definition of `k in s`: some slice of `s` equals `k`. */
  ghost predicate OccursIn(k: string, s: string)
  {
    exists p :: SliceIs(s, p, k)
  }

  lemma {:induction false} ContainsFromIff(s: string, k: string, i: nat)
    ensures ContainsFrom(s, k, i) <==> exists p :: i <= p && SliceIs(s, p, k)
    decreases |s| - i
  {
    if i + |k| <= |s| {
      MatchAtIsSlice(s, k, i, 0);
      ContainsFromIff(s, k, i + 1);
      if ContainsFrom(s, k, i) {
        if MatchAt(s, k, i, 0) {
          assert SliceIs(s, i, k);
        }
      } else {
        forall p | i <= p ensures !SliceIs(s, p, k) {
          if p == i {
            assert !MatchAt(s, k, i, 0);
          }
        }
      }
    }
  }

  /** The scanning definition agrees with the slice definition. */
  lemma ContainsIff(s: string, k: string)
    ensures Contains(s, k) <==> OccursIn(k, s)
  {
    ContainsFromIff(s, k, 0);
  }

  /** A substring of `s` is found in every string that has `s` as a part. */
  lemma ContainsInLonger(s: string, k: string, a: string, b: string)
    requires Contains(s, k)
    ensures Contains(a + s + b, k)
  {
    ContainsIff(s, k);
    var i :| SliceIs(s, i, k);
    var t := a + s + b;
    assert t[|a| + i..|a| + i + |k|] == s[i..i + |k|];
    assert SliceIs(t, |a| + i, k);
    ContainsIff(t, k);
  }

  /** A string cannot contain a pattern with a character that the string lacks. */
  lemma AbsentCharNotContained(s: string, k: string, c: char)
    requires c in k && c !in s
    ensures !Contains(s, k)
  {
    ContainsIff(s, k);
  }

  /** A string cannot contain a pattern whose first two characters never appear side by
      side in it. */
  lemma AbsentPairNotContained(s: string, k: string)
    requires |k| >= 2
    requires forall i :: 0 <= i < |s| - 1 && s[i] == k[0] ==> s[i + 1] != k[1]
    ensures !Contains(s, k)
  {
    forall p | 0 <= p ensures !SliceIs(s, p, k) {
      if p + |k| <= |s| && s[p] == k[0] {
        assert s[p..p + |k|][1] == s[p + 1];
      }
    }
    ContainsIff(s, k);
  }

  /** `s.startswith(p)`. */
  predicate StartsWith(s: string, p: string)
  {
    |p| <= |s| && s[..|p|] == p
  }

  // ---------------------------------------------------------------------------
  // count() — non-overlapping occurrences, scanned left to right
  // ---------------------------------------------------------------------------

  function CountFrom(s: string, k: string, i: nat): nat
    requires |k| > 0
    decreases |s| - i
  {
    if i + |k| > |s| then 0
    else if MatchAt(s, k, i, 0) then 1 + CountFrom(s, k, i + |k|)
    else CountFrom(s, k, i + 1)
  }

  /** `s.count(k)`: the number of non-overlapping occurrences of `k` in `s`, found
      left to right; Python counts `len(s) + 1` for the empty string. */
  function Count(s: string, k: string): nat
  {
    if |k| == 0 then |s| + 1 else CountFrom(s, k, 0)
  }

  lemma {:induction false} CountFromPositive(s: string, k: string, i: nat)
    requires |k| > 0
    ensures CountFrom(s, k, i) > 0 <==> ContainsFrom(s, k, i)
    decreases |s| - i
  {
    if i + |k| <= |s| {
      if MatchAt(s, k, i, 0) {
      } else {
        CountFromPositive(s, k, i + 1);
      }
    }
  }

  lemma {:induction false} CountFromBound(s: string, k: string, i: nat)
    requires |k| > 0 && i <= |s|
    ensures CountFrom(s, k, i) * |k| <= |s| - i
    decreases |s| - i
  {
    if i + |k| <= |s| {
      if MatchAt(s, k, i, 0) {
        CountFromBound(s, k, i + |k|);
      } else {
        CountFromBound(s, k, i + 1);
      }
    }
  }

  /** A category is counted at least once exactly when it occurs, and the counted
      occurrences, being disjoint, fit inside the text. */
  lemma CountMeaning(s: string, k: string)
    ensures |k| > 0 ==> (Count(s, k) > 0 <==> Contains(s, k))
    ensures |k| > 0 ==> Count(s, k) * |k| <= |s|
  {
    if |k| > 0 {
      CountFromPositive(s, k, 0);
      CountFromBound(s, k, 0);
    }
  }

  // ---------------------------------------------------------------------------
  // replace(p, "") — remove every non-overlapping occurrence, left to right
  // ---------------------------------------------------------------------------

  /** `s.replace(p, "")` for a non-empty `p`. */
  function RemoveAll(s: string, p: string): string
    requires |p| > 0
    decreases |s|
  {
    if |s| == 0 then []
    else if StartsWith(s, p) then RemoveAll(s[|p|..], p)
    else [s[0]] + RemoveAll(s[1..], p)
  }

  lemma {:induction false} StartsWithContains(s: string, p: string)
    requires StartsWith(s, p)
    ensures Contains(s, p)
  {
    ContainsIff(s, p);
    assert SliceIs(s, 0, p);
  }

  lemma {:induction false} ContainsTail(s: string, p: string)
    requires |s| > 0 && Contains(s[1..], p)
    ensures Contains(s, p)
  {
    assert s == [s[0]] + s[1..] + [];
    ContainsInLonger(s[1..], p, [s[0]], []);
  }

  /** Removing a pattern that does not occur changes nothing. */
  lemma {:induction false} RemoveAllAbsent(s: string, p: string)
    requires |p| > 0 && !Contains(s, p)
    ensures RemoveAll(s, p) == s
    decreases |s|
  {
    if |s| > 0 {
      if StartsWith(s, p) {
        StartsWithContains(s, p);
      } else {
        if Contains(s[1..], p) {
          ContainsTail(s, p);
        }
        RemoveAllAbsent(s[1..], p);
        assert s == [s[0]] + s[1..];
      }
    }
  }

  /** Removing occurrences never makes a string longer. */
  lemma {:induction false} RemoveAllShorter(s: string, p: string)
    requires |p| > 0
    ensures |RemoveAll(s, p)| <= |s|
    decreases |s|
  {
    if |s| > 0 {
      if StartsWith(s, p) {
        RemoveAllShorter(s[|p|..], p);
      } else {
        RemoveAllShorter(s[1..], p);
      }
    }
  }

  // ---------------------------------------------------------------------------
  // split(sep) and sep.join(...)
  // ---------------------------------------------------------------------------

  /** `s.split(c)` for a one-character separator: the pieces between separators, empty
      pieces included, so there is always at least one piece. */
  function SplitOn(s: string, c: char): (r: seq<string>)
    ensures |r| >= 1
    decreases |s|
  {
    if c !in s then [s]
    else
      var i := IndexOf(s, c);
      [s[..i]] + SplitOn(s[i + 1..], c)
  }

  function IndexOf(s: string, c: char): (i: nat)
    requires c in s
    ensures i < |s| && s[i] == c && c !in s[..i]
  {
    if s[0] == c then 0 else
      assert s == [s[0]] + s[1..];
      1 + IndexOf(s[1..], c)
  }

  /** `c.join(ws)`. */
  function JoinWith(ws: seq<string>, c: char): string
  {
    if |ws| == 0 then []
    else if |ws| == 1 then ws[0]
    else ws[0] + [c] + JoinWith(ws[1..], c)
  }

  /** Joining the pieces of a split gives back the string. */
  lemma {:induction false} JoinSplit(s: string, c: char)
    ensures JoinWith(SplitOn(s, c), c) == s
    decreases |s|
  {
    if c in s {
      var i := IndexOf(s, c);
      JoinSplit(s[i + 1..], c);
      assert s == s[..i] + [c] + s[i + 1..];
    }
  }

  /** In `a + [c] + b` with `c` not in `a`, the first `c` is the one after `a`. */
  lemma IndexOfAfter(a: string, c: char, b: string)
    requires c !in a
    ensures c in a + [c] + b
    ensures IndexOf(a + [c] + b, c) == |a|
    ensures (a + [c] + b)[..|a|] == a && (a + [c] + b)[|a| + 1..] == b
  {
    var s := a + [c] + b;
    assert s[|a|] == c;
    assert s[..|a|] == a;
  }

  /** Splitting a join of pieces that do not contain the separator gives back the pieces. */
  lemma {:induction false} SplitJoin(ws: seq<string>, c: char)
    requires |ws| >= 1
    requires forall k :: 0 <= k < |ws| ==> c !in ws[k]
    ensures SplitOn(JoinWith(ws, c), c) == ws
    decreases |ws|
  {
    if |ws| > 1 {
      var rest := JoinWith(ws[1..], c);
      assert JoinWith(ws, c) == ws[0] + [c] + rest;
      IndexOfAfter(ws[0], c, rest);
      SplitJoin(ws[1..], c);
      assert ws == [ws[0]] + ws[1..];
    }
  }

  // ---------------------------------------------------------------------------
  // split() — runs of whitespace separate words; no empty words
  // ---------------------------------------------------------------------------

  /** `s` with its leading whitespace removed. */
  function LStripSpace(s: string): (r: string)
    ensures |r| <= |s| && r == s[|s| - |r|..]
    ensures |r| > 0 ==> !IsSpace(r[0])
    ensures forall i :: 0 <= i < |s| - |r| ==> IsSpace(s[i])
  {
    if |s| > 0 && IsSpace(s[0]) then LStripSpace(s[1..]) else s
  }

  /** `s` with its trailing whitespace removed. */
  function RStripSpace(s: string): (r: string)
    ensures |r| <= |s| && r == s[..|r|]
    ensures |r| > 0 ==> !IsSpace(r[|r| - 1])
    ensures forall i :: |r| <= i < |s| ==> IsSpace(s[i])
  {
    if |s| > 0 && IsSpace(s[|s| - 1]) then RStripSpace(s[..|s| - 1]) else s
  }

  /** `s.strip()`. */
  function Strip(s: string): string
  {
    RStripSpace(LStripSpace(s))
  }

  /** The longest prefix of `s` without whitespace. */
  function TakeWord(s: string): (w: string)
    ensures |w| <= |s| && w == s[..|w|]
    ensures forall i :: 0 <= i < |w| ==> !IsSpace(w[i])
    ensures |w| < |s| ==> IsSpace(s[|w|])
  {
    if |s| == 0 || IsSpace(s[0]) then [] else [s[0]] + TakeWord(s[1..])
  }

  /** `s.split()`: the maximal runs of non-whitespace characters, in order. */
  function Words(s: string): seq<string>
    decreases |s|
  {
    var t := LStripSpace(s);
    if |t| == 0 then []
    else
      var w := TakeWord(t);
      [w] + Words(t[|w|..])
  }

  lemma {:induction false} LStripSpaceConcat(x: string, y: string)
    ensures |LStripSpace(x)| > 0 ==> LStripSpace(x + y) == LStripSpace(x) + y
    ensures |LStripSpace(x)| == 0 ==> LStripSpace(x + y) == LStripSpace(y)
    decreases |x|
  {
    if |x| == 0 {
      assert x + y == y;
    } else {
      assert (x + y)[0] == x[0];
      if IsSpace(x[0]) {
        assert (x + y)[1..] == x[1..] + y;
        LStripSpaceConcat(x[1..], y);
      }
    }
  }

  lemma {:induction false} TakeWordConcat(x: string, y: string)
    requires |TakeWord(x)| < |x| || (|y| > 0 && IsSpace(y[0]))
    ensures TakeWord(x + y) == TakeWord(x)
    decreases |x|
  {
    if |x| == 0 {
      assert x + y == y;
    } else {
      assert (x + y)[0] == x[0];
      if !IsSpace(x[0]) {
        assert (x + y)[1..] == x[1..] + y;
        TakeWordConcat(x[1..], y);
      }
    }
  }

  lemma WordsOfStripped(x: string)
    ensures Words(x) == Words(LStripSpace(x))
  {
    var t := LStripSpace(x);
    assert LStripSpace(t) == t;
  }

  /** One step of `split()`: the first word, then the words of what follows it. */
  lemma WordsStep(s: string)
    requires |LStripSpace(s)| > 0
    ensures Words(s) == [TakeWord(LStripSpace(s))] + Words(LStripSpace(s)[|TakeWord(LStripSpace(s))|..])
  {
  }

  lemma WordsConcatBlank(a: string, c: char, b: string)
    requires IsSpace(c) && |LStripSpace(a)| == 0
    ensures Words(a + [c] + b) == Words(b)
  {
    var s := a + [c] + b;
    assert s == a + ([c] + b);
    LStripSpaceConcat(a, [c] + b);
    LStripSpaceConcat([c], b);
    WordsOfStripped(s);
    WordsOfStripped(b);
  }

  lemma StripBeforeSpace(a: string, c: char, b: string)
    requires IsSpace(c) && |LStripSpace(a)| > 0
    ensures LStripSpace(a + [c] + b) == LStripSpace(a) + [c] + b
  {
    assert a + [c] + b == a + ([c] + b);
    LStripSpaceConcat(a, [c] + b);
    assert LStripSpace(a) + ([c] + b) == LStripSpace(a) + [c] + b;
  }

  lemma WordBeforeSpace(t: string, c: char, b: string)
    requires IsSpace(c)
    ensures TakeWord(t + [c] + b) == TakeWord(t)
  {
    assert t + [c] + b == t + ([c] + b);
    TakeWordConcat(t, [c] + b);
  }

  lemma DropBeforeSpace(t: string, c: char, b: string, k: nat)
    requires k <= |t|
    ensures (t + [c] + b)[k..] == t[k..] + [c] + b
  {
  }

  lemma WordsAfterFirst(a: string, c: char, b: string)
    requires IsSpace(c) && |LStripSpace(a)| > 0
    ensures Words(a + [c] + b)
         == [TakeWord(LStripSpace(a))] + Words(LStripSpace(a)[|TakeWord(LStripSpace(a))|..] + [c] + b)
  {
    var t := LStripSpace(a);
    var w := TakeWord(t);
    StripBeforeSpace(a, c, b);
    WordBeforeSpace(t, c, b);
    DropBeforeSpace(t, c, b, |w|);
    WordsStep(a + [c] + b);
  }

  lemma ConsAssoc<T>(x: T, p: seq<T>, q: seq<T>)
    ensures [x] + (p + q) == [x] + p + q
  {
  }

  /** Splitting on whitespace distributes over a whitespace join. */
  lemma {:induction false} WordsConcat(a: string, c: char, b: string)
    requires IsSpace(c)
    ensures Words(a + [c] + b) == Words(a) + Words(b)
    decreases |a|
  {
    var t := LStripSpace(a);
    if |t| == 0 {
      WordsConcatBlank(a, c, b);
      WordsOfStripped(a);
    } else {
      var w := TakeWord(t);
      var rest := t[|w|..];
      WordsAfterFirst(a, c, b);
      WordsConcat(rest, c, b);
      WordsStep(a);
      ConsAssoc(w, Words(rest), Words(b));
    }
  }

  // ---------------------------------------------------------------------------
  // lstrip(c) / rstrip(c) for one character
  // ---------------------------------------------------------------------------

  /** `s.lstrip(c)`. */
  function LStripChar(s: string, c: char): (r: string)
    ensures |r| <= |s| && r == s[|s| - |r|..]
    ensures |r| > 0 ==> r[0] != c
    ensures forall i :: 0 <= i < |s| - |r| ==> s[i] == c
  {
    if |s| > 0 && s[0] == c then LStripChar(s[1..], c) else s
  }

  /** `s.rstrip(c)`. */
  function RStripChar(s: string, c: char): (r: string)
    ensures |r| <= |s| && r == s[..|r|]
    ensures |r| > 0 ==> r[|r| - 1] != c
    ensures forall i :: |r| <= i < |s| ==> s[i] == c
  {
    if |s| > 0 && s[|s| - 1] == c then RStripChar(s[..|s| - 1], c) else s
  }

  // ---------------------------------------------------------------------------
  // Slicing
  // ---------------------------------------------------------------------------

  /** A Python slice bound: negative counts from the end, then clamped to `0..n`. */
  function SliceBound(i: int, n: nat): (b: nat)
    ensures b <= n
  {
    if i < 0 then (if i + n < 0 then 0 else i + n) else if i > n then n else i
  }

  /** `s[i:j]` with Python's slice semantics. */
  function PySlice<T>(s: seq<T>, i: int, j: int): (r: seq<T>)
    ensures 0 <= i <= j ==> r == s[SliceBound(i, |s|)..SliceBound(j, |s|)]
  {
    var lo, hi := SliceBound(i, |s|), SliceBound(j, |s|);
    if hi <= lo then [] else s[lo..hi]
  }
}
