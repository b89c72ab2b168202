/** The Python string operations the converters rely on, with Python's
    semantics: the tail slice `s[-n:]`, `str.find`, `str.replace` and
    `str.split` with a one-character separator (plus `join`, its inverse). */
module PyStrings {

  /** `s[-n:]`: the last `n` characters, or the whole of `s` when it is shorter. */
  function TailSlice(s: string, n: nat): (t: string)
    ensures |t| == if |s| < n then |s| else n
    ensures s == s[..|s| - |t|] + t
  {
    if |s| < n then s else s[|s| - n..]
  }

  predicate EndsWith(s: string, suffix: string)
  {
    |suffix| <= |s| && s[|s| - |suffix|..] == suffix
  }

  /** Comparing the tail slice with a string of that length is a suffix test. */
  lemma TailSliceIsSuffixTest(s: string, suffix: string)
    ensures TailSlice(s, |suffix|) == suffix <==> EndsWith(s, suffix)
  {
  }

  /** `p` occurs in `s` starting at index `i`. */
  ghost predicate OccursAt(s: string, p: string, i: int)
  {
    0 <= i && i + |p| <= |s| && s[i..i + |p|] == p
  }

  ghost predicate Occurs(s: string, p: string)
  {
    exists i :: OccursAt(s, p, i)
  }

  /** `s.find(p)`: the first index at which `p` occurs in `s`, or -1. */
  function Find(s: string, p: string): (r: int)
    ensures r >= -1 && (r >= 0 ==> r + |p| <= |s|)
  {
    if p <= s then 0
    else if |s| == 0 then -1
    else
      var r := Find(s[1..], p);
      if r < 0 then -1 else r + 1
  }

  /** `find` answers -1 exactly when `p` does not occur, and otherwise the
      first index at which it occurs. */
  lemma {:induction false} FindSpec(s: string, p: string)
    ensures Find(s, p) == -1 <==> !Occurs(s, p)
    ensures Find(s, p) >= 0 ==>
              OccursAt(s, p, Find(s, p)) && forall i :: 0 <= i < Find(s, p) ==> !OccursAt(s, p, i)
  {
    if p <= s {
      assert OccursAt(s, p, 0);
    } else if |s| == 0 {
      assert forall i :: !OccursAt(s, p, i);
    } else {
      FindSpec(s[1..], p);
      var r := Find(s[1..], p);
      assert !OccursAt(s, p, 0);
      if r < 0 {
        forall i ensures !OccursAt(s, p, i) {
          if i >= 1 { OccursShift(s, p, i); }
        }
      } else {
        OccursShift(s, p, r + 1);
        forall i | 0 <= i < r + 1 ensures !OccursAt(s, p, i) {
          if i >= 1 { OccursShift(s, p, i); }
        }
      }
    }
  }

  /** An occurrence past the first character is an occurrence in the tail. */
  lemma OccursShift(s: string, p: string, i: int)
    requires |s| > 0 && i >= 1
    ensures OccursAt(s, p, i) <==> OccursAt(s[1..], p, i - 1)
  {
    if i + |p| <= |s| {
      assert s[i..i + |p|] == s[1..][i - 1..i - 1 + |p|];
    }
  }

  /** `s.replace(p, rep)` for a non-empty `p`: scanning from the left, every
      occurrence of `p` that does not overlap an earlier replaced one is
      replaced by `rep`. */
  function Replace(s: string, p: string, rep: string): string
    requires |p| > 0
    decreases |s|
  {
    if |s| == 0 then ""
    else if p <= s then rep + Replace(s[|p|..], p, rep)
    else [s[0]] + Replace(s[1..], p, rep)
  }

  /** The shape of Python's description of `replace` (see ReplaceFirst). */
  ghost predicate ReplacesFirstThenRest(s: string, p: string, rep: string)
    requires |p| > 0
  {
    var i := Find(s, p);
    Replace(s, p, rep) == if i < 0 then s else s[..i] + rep + Replace(s[i + |p|..], p, rep)
  }

  /** Python's description of `replace`: the text before the first occurrence
      is kept, that occurrence is replaced, and the replacement continues
      after it; with no occurrence the string is returned as it is. */
  lemma {:induction false} ReplaceFirst(s: string, p: string, rep: string)
    requires |p| > 0
    ensures ReplacesFirstThenRest(s, p, rep)
    decreases |s|
  {
    if |s| == 0 {
    } else if p <= s {
      assert Find(s, p) == 0;
      assert Replace(s, p, rep) == rep + Replace(s[|p|..], p, rep);
      assert s[..0] == "";
    } else {
      ReplaceFirst(s[1..], p, rep);
      ReplaceFirstStep(s, p, rep);
    }
  }

  /** The inductive step of ReplaceFirst: a first character that does not
      start an occurrence is kept and shifts the first occurrence by one. */
  lemma ReplaceFirstStep(s: string, p: string, rep: string)
    requires |p| > 0 && |s| > 0 && !(p <= s)
    requires ReplacesFirstThenRest(s[1..], p, rep)
    ensures ReplacesFirstThenRest(s, p, rep)
  {
    var r := Find(s[1..], p);
    FindSkipsFirst(s, p);
    ReplaceKeepsFirst(s, p, rep);
    if r >= 0 {
      ShiftedSlices(s, r, |p|);
      var before, after := s[1..][..r], Replace(s[1..][r + |p|..], p, rep);
      assert [s[0]] + (before + rep + after) == ([s[0]] + before) + rep + after;
    }
  }

  lemma FindSkipsFirst(s: string, p: string)
    requires |s| > 0 && !(p <= s)
    ensures Find(s, p) == if Find(s[1..], p) < 0 then -1 else Find(s[1..], p) + 1
  {
  }

  lemma ReplaceKeepsFirst(s: string, p: string, rep: string)
    requires |p| > 0 && |s| > 0 && !(p <= s)
    ensures Replace(s, p, rep) == [s[0]] + Replace(s[1..], p, rep)
  {
  }

  lemma ShiftedSlices(s: string, r: nat, n: nat)
    requires |s| > 0 && r + 1 + n <= |s|
    ensures s[..r + 1] == [s[0]] + s[1..][..r]
    ensures s[r + 1 + n..] == s[1..][r + n..]
  {
  }

  /** A string in which `p` does not occur is left unchanged. */
  lemma ReplaceAbsent(s: string, p: string, rep: string)
    requires |p| > 0 && !Occurs(s, p)
    ensures Replace(s, p, rep) == s
  {
    FindSpec(s, p);
    ReplaceFirst(s, p, rep);
  }

  /** Removing a pattern never lengthens a string. */
  lemma {:induction false} ReplaceByEmptyShrinks(s: string, p: string)
    requires |p| > 0
    ensures |Replace(s, p, "")| <= |s|
    decreases |s|
  {
    if |s| == 0 {
    } else if p <= s {
      ReplaceByEmptyShrinks(s[|p|..], p);
    } else {
      ReplaceByEmptyShrinks(s[1..], p);
    }
  }

  /** `s.split(sep)` for a one-character separator: the pieces between
      separators, at least one piece, none containing the separator. */
  function Split(s: string, sep: char): (parts: seq<string>)
    ensures |parts| >= 1
  {
    if |s| == 0 then [""]
    else
      var rest := Split(s[1..], sep);
      if s[0] == sep then [""] + rest
      else [[s[0]] + rest[0]] + rest[1..]
  }

  /** No piece of a split holds the separator. */
  lemma {:induction false} SplitPiecesLackSeparator(s: string, sep: char)
    ensures forall k :: 0 <= k < |Split(s, sep)| ==> sep !in Split(s, sep)[k]
  {
    if |s| > 0 {
      SplitPiecesLackSeparator(s[1..], sep);
    }
  }

  /** `sep.join(parts)`. */
  function Join(parts: seq<string>, sep: char): string
    requires |parts| >= 1
  {
    if |parts| == 1 then parts[0]
    else parts[0] + [sep] + Join(parts[1..], sep)
  }

  /** Joining the pieces of a split gives the string back. */
  lemma {:induction false} JoinSplit(s: string, sep: char)
    ensures Join(Split(s, sep), sep) == s
  {
    if |s| > 0 {
      JoinSplit(s[1..], sep);
      var rest := Split(s[1..], sep);
      if s[0] != sep && |rest| > 1 {
        assert Split(s, sep)[1..] == rest[1..];
      }
    }
  }

  /** One step of `split`: the first character either ends the first piece
      (a separator) or is glued to it. */
  lemma SplitCons(c: char, s: string, sep: char)
    ensures Split([c] + s, sep)
            == if c == sep then [""] + Split(s, sep)
               else [[c] + Split(s, sep)[0]] + Split(s, sep)[1..]
  {
    assert ([c] + s)[0] == c && ([c] + s)[1..] == s;
  }

  /** Splitting a string that starts with a separator-free prefix `w`: `w`
      is glued to the first piece of the rest. */
  lemma {:induction false} SplitPrefix(w: string, t: string, sep: char)
    requires sep !in w
    ensures Split(w + t, sep) == [w + Split(t, sep)[0]] + Split(t, sep)[1..]
  {
    var st := Split(t, sep);
    if |w| == 0 {
      assert w + t == t && w + st[0] == st[0];
      assert [st[0]] + st[1..] == st;
    } else {
      var c, w' := w[0], w[1..];
      assert c != sep && sep !in w';
      SplitPrefix(w', t, sep);
      assert w + t == [c] + (w' + t);
      SplitPrefixStep(c, w' + t, w' + st[0], st[1..], sep);
      assert [c] + (w' + st[0]) == w + st[0];
    }
  }

  /** The inductive step of SplitPrefix, with the split tail kept abstract. */
  lemma SplitPrefixStep(c: char, x: string, first: string, more: seq<string>, sep: char)
    requires c != sep && Split(x, sep) == [first] + more
    ensures Split([c] + x, sep) == [[c] + first] + more
  {
    SplitCons(c, x, sep);
    assert ([first] + more)[1..] == more;
  }

  /** Splitting separator-free pieces joined by the separator gives the
      pieces back. */
  lemma {:induction false} SplitJoin(parts: seq<string>, sep: char)
    requires |parts| >= 1
    requires forall k :: 0 <= k < |parts| ==> sep !in parts[k]
    ensures Split(Join(parts, sep), sep) == parts
  {
    if |parts| == 1 {
      SplitPrefix(parts[0], "", sep);
      assert parts[0] + "" == parts[0];
    } else {
      var t := Join(parts[1..], sep);
      SplitJoin(parts[1..], sep);
      assert parts[0] + [sep] + t == parts[0] + ([sep] + t);
      SplitPrefix(parts[0], [sep] + t, sep);
      assert ([sep] + t)[0] == sep && ([sep] + t)[1..] == t;
      assert Split([sep] + t, sep) == [""] + parts[1..];
      assert parts[0] + "" == parts[0];
      assert parts == [parts[0]] + parts[1..];
    }
  }

  /** A string without the separator is a single piece. */
  lemma SplitWithoutSeparator(w: string, sep: char)
    requires sep !in w
    ensures Split(w, sep) == [w]
  {
    SplitPrefix(w, "", sep);
    assert w + "" == w;
  }

  /** Splitting at a separator splits the two sides independently. */
  lemma {:induction false} SplitConcat(a: string, b: string, sep: char)
    ensures Split(a + [sep] + b, sep) == Split(a, sep) + Split(b, sep)
  {
    if |a| == 0 {
      assert a + [sep] + b == [sep] + b;
      SplitCons(sep, b, sep);
      assert Split(a, sep) == [""];
    } else {
      SplitConcat(a[1..], b, sep);
      ConsConcat(a, sep, b);
      SplitConcatStep(a[0], a[1..], a[1..] + [sep] + b, Split(b, sep), sep);
    }
  }

  /** The inductive step of SplitConcat, with the joined tail `x` kept
      abstract. */
  lemma SplitConcatStep(c: char, a: string, x: string, sb: seq<string>, sep: char)
    requires Split(x, sep) == Split(a, sep) + sb
    ensures Split([c] + x, sep) == Split([c] + a, sep) + sb
  {
    var sx, sa := Split(x, sep), Split(a, sep);
    SplitCons(c, x, sep);
    SplitCons(c, a, sep);
    if c != sep {
      calc {
        Split([c] + x, sep);
        [[c] + sx[0]] + sx[1..];
        { GlueToFirst([c], sa, sb); }
        ([[c] + sa[0]] + sa[1..]) + sb;
        Split([c] + a, sep) + sb;
      }
    } else {
      assert [""] + (sa + sb) == ([""] + sa) + sb;
    }
  }

  /** Gluing `h` to the first piece commutes with appending more pieces. */
  lemma GlueToFirst(h: string, sa: seq<string>, sb: seq<string>)
    requires |sa| > 0
    ensures [h + (sa + sb)[0]] + (sa + sb)[1..] == ([h + sa[0]] + sa[1..]) + sb
  {
    assert (sa + sb)[1..] == sa[1..] + sb;
  }

  lemma ConsConcat(a: string, sep: char, b: string)
    requires |a| > 0
    ensures a + [sep] + b == [a[0]] + (a[1..] + [sep] + b)
    ensures a == [a[0]] + a[1..]
  {
  }

  /** The last piece of a split follows the last separator. */
  lemma {:induction false} JoinLast(parts: seq<string>, sep: char)
    requires |parts| >= 2
    ensures Join(parts, sep) == Join(parts[..|parts| - 1], sep) + [sep] + parts[|parts| - 1]
  {
    if |parts| > 2 {
      JoinLast(parts[1..], sep);
      assert parts[1..][..|parts| - 2] == parts[..|parts| - 1][1..];
    }
  }
}
