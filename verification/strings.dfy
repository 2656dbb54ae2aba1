/** String helpers the serialisers rely on: counting occurrences of a delimiter,
    Go's `strings.Join`, and the file-name half of `filepath.Split`. */
module Strings {

  /** `pat` occurs in `s` starting at position `i`. */
  predicate OccursAt(pat: string, s: string, i: int)
  {
    0 <= i && i + |pat| <= |s| && s[i..i + |pat|] == pat
  }

  /** Number of positions at which a non-empty `pat` occurs in `s`
      (overlapping occurrences are counted separately). */
  function Occurrences(pat: string, s: string): nat
    decreases |s|
  {
    if |pat| == 0 || |s| < |pat| then 0
    else (if s[..|pat|] == pat then 1 else 0) + Occurrences(pat, s[1..])
  }

  /** `s` contains no occurrence of `pat`. */
  predicate Avoids(s: string, pat: string)
  {
    Occurrences(pat, s) == 0
  }

  /** The count is zero exactly when no position of `s` starts a copy of `pat`. */
  lemma {:induction false} OccurrencesZeroIff(pat: string, s: string)
    requires |pat| > 0
    ensures Occurrences(pat, s) == 0 <==> forall i :: !OccursAt(pat, s, i)
    decreases |s|
  {
    if |s| < |pat| {
      forall i ensures !OccursAt(pat, s, i) { }
    } else {
      OccurrencesZeroIff(pat, s[1..]);
      if Occurrences(pat, s) == 0 {
        forall i ensures !OccursAt(pat, s, i) {
          if OccursAt(pat, s, i) && i > 0 {
            OccursAtTail(pat, s, i - 1);
          }
        }
      } else if s[..|pat|] == pat {
        assert s[..|pat|] == s[0..0 + |pat|];
        assert OccursAt(pat, s, 0);
      } else {
        forall i | 0 <= i ensures OccursAt(pat, s[1..], i) ==> OccursAt(pat, s, i + 1) {
          OccursAtTail(pat, s, i);
        }
      }
    }
  }

  /** The copies of `pat` in the tail of `s` are those in `s`, one place on. */
  lemma OccursAtTail(pat: string, s: string, i: nat)
    requires |s| > 0
    ensures OccursAt(pat, s[1..], i) <==> OccursAt(pat, s, i + 1)
  {
    if i + |pat| <= |s[1..]| {
      assert s[1..][i..i + |pat|] == s[i + 1..i + 1 + |pat|];
    }
  }

  /** Counting distributes over a concatenation when no occurrence can straddle
      the seam: one of the two characters meeting there is foreign to `pat`. */
  lemma {:induction false} OccurrencesConcat(pat: string, a: string, b: string)
    requires |pat| > 0
    requires a == [] || b == [] || a[|a| - 1] !in pat || b[0] !in pat
    ensures Occurrences(pat, a + b) == Occurrences(pat, a) + Occurrences(pat, b)
    decreases |a|
  {
    if a == [] {
      assert a + b == b;
    } else {
      var s := a + b;
      if |s| >= |pat| {
        assert s[1..] == a[1..] + b;
        OccurrencesConcat(pat, a[1..], b);
        if |a| < |pat| {
          // a copy at the front would hold both seam characters
          assert s[..|pat|][|a| - 1] == a[|a| - 1];
          assert s[..|pat|][|a|] == b[0];
        }
      }
    }
  }

  /** `s` is empty or opens with a character that `pat` does not contain, so
      no copy of `pat` can straddle a seam in front of it. */
  predicate StartsForeign(s: string, pat: string)
  {
    s == [] || s[0] !in pat
  }

  /** Counting over three pieces, each later piece opening foreign to `pat`. */
  lemma OccurrencesConcat3(pat: string, a: string, b: string, c: string)
    requires |pat| > 0 && StartsForeign(b, pat) && StartsForeign(c, pat)
    ensures Occurrences(pat, a + b + c) == Occurrences(pat, a) + Occurrences(pat, b) + Occurrences(pat, c)
  {
    OccurrencesConcat(pat, a, b);
    OccurrencesConcat(pat, a + b, c);
  }

  /** Counting over four pieces, each later piece opening foreign to `pat`. */
  lemma OccurrencesConcat4(pat: string, a: string, b: string, c: string, d: string)
    requires |pat| > 0 && StartsForeign(b, pat) && StartsForeign(c, pat) && StartsForeign(d, pat)
    ensures Occurrences(pat, a + b + c + d)
         == Occurrences(pat, a) + Occurrences(pat, b) + Occurrences(pat, c) + Occurrences(pat, d)
  {
    OccurrencesConcat3(pat, a, b, c);
    OccurrencesConcat(pat, a + b + c, d);
  }

  /** Appending text that holds no copy of `pat` and opens foreign to it
      leaves the count unchanged. */
  lemma AppendAvoiding(pat: string, s: string, t: string)
    requires |pat| > 0 && Avoids(t, pat) && StartsForeign(t, pat)
    ensures Occurrences(pat, s + t) == Occurrences(pat, s)
  {
    OccurrencesConcat(pat, s, t);
  }

  /** The first of four pieces is a prefix of their concatenation. */
  lemma PrefixOfConcat4(a: string, b: string, c: string, d: string)
    ensures a <= a + b + c + d
  {
    assert (a + b + c + d)[..|a|] == a;
  }

  /** Concatenation is associative; stated once so that callers need not
      compare sequences element by element. */
  lemma AppendAssoc<T>(a: seq<T>, b: seq<T>, c: seq<T>)
    ensures a + b + c == a + (b + c)
  {
  }

  /** Empty pieces around a concatenation drop out. */
  lemma DropEmpty<T>(a: seq<T>, b: seq<T>, c: seq<T>)
    ensures a + [] + b + c + [] == a + b + c
  {
  }

  /** The middle piece of a concatenation is found right after the first. */
  lemma SliceOfConcat<T>(a: seq<T>, x: seq<T>, c: seq<T>)
    ensures |a| + |x| <= |a + x + c| && (a + x + c)[|a|..|a| + |x|] == x
  {
  }

  /** Putting the same text in front keeps a prefix a prefix. */
  lemma PrefixAfter<T>(c: seq<T>, a: seq<T>, b: seq<T>)
    requires a <= b
    ensures c + a <= c + b
  {
    assert (c + b)[..|c + a|] == c + b[..|a|];
  }

  /** A sequence is a proper prefix of itself extended by something. */
  lemma ProperPrefix<T>(a: seq<T>, b: seq<T>)
    requires |b| > 0
    ensures a < a + b
  {
    assert (a + b)[..|a|] == a;
  }

  /** No two adjacent dashes anywhere in `s`. */
  ghost predicate DoubleDashFree(s: string)
  {
    forall i :: 0 <= i < |s| - 1 ==> !(s[i] == '-' && s[i + 1] == '-')
  }

  /** A pattern that opens with `--` cannot occur in text without a double dash. */
  lemma {:induction false} DoubleDashFreeAvoids(pat: string, s: string)
    requires |pat| >= 2 && pat[0] == '-' && pat[1] == '-'
    requires DoubleDashFree(s)
    ensures Avoids(s, pat)
    decreases |s|
  {
    if |s| >= |pat| {
      assert s[0] == '-' && s[1] == '-' ==> false;
      assert DoubleDashFree(s[1..]) by {
        forall i | 0 <= i < |s[1..]| - 1 ensures !(s[1..][i] == '-' && s[1..][i + 1] == '-') {
          assert s[1..][i] == s[i + 1] && s[1..][i + 1] == s[i + 2];
        }
      }
      DoubleDashFreeAvoids(pat, s[1..]);
    }
  }

  /** Appending `--` after text creates no new occurrence of `--` followed by a
      dash-free word: a straddling copy would need a dash inside the word. */
  lemma {:induction false} AppendDashesKeepsCount(word: string, s: string)
    requires |word| > 0 && '-' !in word
    ensures Occurrences("--" + word, s + "--") == Occurrences("--" + word, s)
    decreases |s|
  {
    var pat := "--" + word;
    var t := s + "--";
    if s == [] {
      assert t == "--";
    } else if |t| >= |pat| {
      assert t[1..] == s[1..] + "--";
      AppendDashesKeepsCount(word, s[1..]);
      if |s| < |pat| {
        // a copy at the front would put a dash of the suffix inside `word`
        if |s| >= 2 {
          assert t[..|pat|][|s|] == '-' && pat[|s|] == word[|s| - 2];
        } else {
          assert t[..|pat|][2] == '-' && pat[2] == word[0];
        }
      }
    }
  }

  /** A delimiter line `--word` holds exactly one copy of itself when the word
      has no dash. */
  lemma DelimiterOccursOnce(word: string)
    requires |word| > 0 && '-' !in word
    ensures Occurrences("--" + word, "--" + word) == 1
  {
    var pat := "--" + word;
    assert pat[..|pat|] == pat;
    assert Occurrences(pat, pat[1..]) == 0;
  }

  /** Go's `strings.Join(parts, sep)`. */
  function Join(parts: seq<string>, sep: string): string
    decreases |parts|
  {
    if |parts| == 0 then ""
    else if |parts| == 1 then parts[0]
    else parts[0] + sep + Join(parts[1..], sep)
  }

  /** Go's `strings.Split(s, sep)` for a one-character separator: the pieces
      between separators, always at least one (so `Split("")` is `[""]`). */
  function Split(s: string, sep: char): (r: seq<string>)
    ensures |r| >= 1
    decreases |s|
  {
    if sep !in s then [s]
    else
      var i := IndexOf(s, sep);
      [s[..i]] + Split(s[i + 1..], sep)
  }

  /** Position of the first `c` in `s`. */
  function IndexOf(s: string, c: char): (i: nat)
    requires c in s
    ensures i < |s| && s[i] == c && c !in s[..i]
  {
    if s[0] == c then 0 else 1 + IndexOf(s[1..], c)
  }

  /** Joining with a separator that no part contains can be undone by splitting,
      provided there is at least one part: `Join([], sep)` and `Join([""], sep)`
      are both empty, so the empty list is the one list the joined text loses. */
  lemma {:induction false} SplitJoin(parts: seq<string>, sep: char)
    requires |parts| >= 1
    requires forall k :: 0 <= k < |parts| ==> sep !in parts[k]
    ensures Split(Join(parts, [sep]), sep) == parts
    decreases |parts|
  {
    if |parts| > 1 {
      var s := Join(parts, [sep]);
      var rest := Join(parts[1..], [sep]);
      assert s == parts[0] + [sep] + rest;
      assert s[|parts[0]|] == sep;
      assert sep in s;
      var i := IndexOf(s, sep);
      assert s[..|parts[0]|] == parts[0];
      if i < |parts[0]| {
        assert false;
      }
      if i > |parts[0]| {
        assert false;
      }
      assert s[i + 1..] == rest;
      SplitJoin(parts[1..], sep);
    }
  }

  /** Path separator of the platform (`os.PathSeparator` on Unix). */
  const Separator: char := '/'

  /** The file half of `filepath.Split(path)`: everything after the last
      separator, or the whole path when it has none. */
  function Basename(path: string): string
    decreases |path|
  {
    if |path| == 0 then ""
    else if path[|path| - 1] == Separator then ""
    else Basename(path[..|path| - 1]) + [path[|path| - 1]]
  }

  /** The base name is a separator-free suffix of the path that is either
      the whole path or preceded by a separator. */
  lemma {:induction false} BasenameSpec(path: string)
    ensures var r := Basename(path);
      && Separator !in r
      && |r| <= |path| && r == path[|path| - |r|..]
      && (|r| == |path| || path[|path| - |r| - 1] == Separator)
    decreases |path|
  {
    if |path| > 0 && path[|path| - 1] != Separator {
      var init := path[..|path| - 1];
      BasenameSpec(init);
      var r0 := Basename(init);
      var r := r0 + [path[|path| - 1]];
      assert r == path[|path| - |r|..] by {
        assert r0 == init[|init| - |r0|..];
        assert path[|path| - |r|..] == init[|init| - |r0|..] + [path[|path| - 1]];
      }
      if |r| < |path| {
        assert path[|path| - |r| - 1] == init[|init| - |r0| - 1];
      }
    }
  }
}
