/**
  The few pieces of java.lang.String behaviour the formatter relies on:
  `String.repeat`, `String.trim` and `String.split("\n")`, stated on
  `seq<char>` (no UTF-16 surrogate handling).
 */
module JavaString {

  /** `c` repeated `n` times (`String.repeat`, `Collections.nCopies`). */
  function Repeat(c: char, n: nat): (r: string)
    ensures |r| == n
    ensures forall k :: 0 <= k < n ==> r[k] == c
  {
    if n == 0 then "" else Repeat(c, n - 1) + [c]
  }

  /** `String.trim` removes every character whose code is at most U+0020. */
  /** Regrouping a concatenation, as a fact to call where the solver
      would otherwise search for it. */
  lemma ConcatAssoc(a: string, b: string, c: string)
    ensures (a + b) + c == a + (b + c)
  {
  }

  predicate IsTrimmed(c: char) {
    c <= ' '
  }

  function TrimLeft(s: string): string {
    if s == "" || !IsTrimmed(s[0]) then s else TrimLeft(s[1..])
  }

  function TrimRight(s: string): string {
    if s == "" || !IsTrimmed(s[|s| - 1]) then s else TrimRight(s[..|s| - 1])
  }

  /** `String.trim`: the longest middle part of `s` with no trimmed
      character at either end. */
  function Trim(s: string): string {
    TrimRight(TrimLeft(s))
  }

  /** `TrimLeft` keeps a suffix that starts with a kept character, and
      everything it drops is a trimmed character. */
  lemma {:induction false} TrimLeftDropsTrimmedPrefix(s: string)
    ensures var r := TrimLeft(s);
      |r| <= |s| && r == s[|s| - |r|..]
      && (r == "" || !IsTrimmed(r[0]))
      && forall k :: 0 <= k < |s| - |r| ==> IsTrimmed(s[k])
    decreases |s|
  {
    if s != "" && IsTrimmed(s[0]) {
      TrimLeftDropsTrimmedPrefix(s[1..]);
      var r := TrimLeft(s[1..]);
      forall k | 0 <= k < |s| - |r|
        ensures IsTrimmed(s[k])
      {
        if k > 0 {
          assert s[k] == s[1..][k - 1];
        }
      }
    }
  }

  /** `TrimRight` keeps a prefix that ends with a kept character, and
      everything it drops is a trimmed character. */
  lemma {:induction false} TrimRightDropsTrimmedSuffix(s: string)
    ensures var r := TrimRight(s);
      |r| <= |s| && r == s[..|r|]
      && (r == "" || !IsTrimmed(r[|r| - 1]))
      && forall k :: |r| <= k < |s| ==> IsTrimmed(s[k])
    decreases |s|
  {
    if s != "" && IsTrimmed(s[|s| - 1]) {
      var t := s[..|s| - 1];
      TrimRightDropsTrimmedSuffix(t);
      var r := TrimRight(t);
      assert r == s[..|r|];
      forall k | |r| <= k < |s|
        ensures IsTrimmed(s[k])
      {
        if k < |s| - 1 {
          assert s[k] == t[k];
        }
      }
    }
  }

  /** `Trim` keeps a contiguous part of its input whose first and last
      characters are kept characters. */
  lemma TrimKeepsMiddle(s: string)
    ensures var r := Trim(s);
      (exists a :: 0 <= a <= |s| - |r| && r == s[a..][..|r|])
      && (r == "" || (!IsTrimmed(r[0]) && !IsTrimmed(r[|r| - 1])))
  {
    var l := TrimLeft(s);
    TrimLeftDropsTrimmedPrefix(s);
    TrimRightDropsTrimmedSuffix(l);
    var r := TrimRight(l);
    var a := |s| - |l|;
    assert r == s[a..][..|r|];
    if r != "" {
      assert r[0] == l[0];
    }
  }

  /** All segments of `s` between occurrences of `sep`, empty ones included. */
  function Segments(s: string, sep: char): (r: seq<string>)
    ensures |r| >= 1
    ensures |r| == 1 <==> sep !in s
    decreases |s|
  {
    if s == "" then [""]
    else
      var rest := Segments(s[1..], sep);
      assert s == [s[0]] + s[1..];
      if s[0] == sep then [""] + rest else [[s[0]] + rest[0]] + rest[1..]
  }

  function DropTrailingEmpty(parts: seq<string>): (r: seq<string>)
    ensures |r| <= |parts| && r == parts[..|r|]
    ensures r == [] || r[|r| - 1] != ""
    ensures forall k :: |r| <= k < |parts| ==> parts[k] == ""
  {
    if parts == [] || parts[|parts| - 1] != "" then parts
    else DropTrailingEmpty(parts[..|parts| - 1])
  }

  /** `s.split(String.valueOf(sep))` with Java's rules: when `sep` does not
      occur the result is `[s]`, otherwise the segments with trailing empty
      ones removed. */
  function Split(s: string, sep: char): seq<string> {
    if sep !in s then [s] else DropTrailingEmpty(Segments(s, sep))
  }

  /** The last element of `Split(s, sep)`, or "" when the split is empty
      (Java indexes out of bounds there, see `SplitEmptyOnlyForSeparators`). */
  function LastPart(s: string, sep: char): string {
    var parts := Split(s, sep);
    if parts == [] then "" else parts[|parts| - 1]
  }

  predicate OnlyChar(s: string, c: char) {
    forall k :: 0 <= k < |s| ==> s[k] == c
  }

  lemma {:induction false} SegmentsAllEmpty(s: string, sep: char)
    requires OnlyChar(s, sep)
    ensures forall k :: 0 <= k < |Segments(s, sep)| ==> Segments(s, sep)[k] == ""
    decreases |s|
  {
    if s != "" {
      SegmentsAllEmpty(s[1..], sep);
    }
  }

  lemma {:induction false} SegmentsSomeNonEmpty(s: string, sep: char, i: nat)
    requires i < |s| && s[i] != sep
    ensures exists k :: 0 <= k < |Segments(s, sep)| && Segments(s, sep)[k] != ""
    decreases |s|
  {
    var rest := Segments(s[1..], sep);
    if s[0] == sep {
      SegmentsSomeNonEmpty(s[1..], sep, i - 1);
      var k :| 0 <= k < |rest| && rest[k] != "";
      assert Segments(s, sep)[k + 1] == rest[k];
    } else {
      assert Segments(s, sep)[0] != "";
    }
  }

  /** Java's `split` yields no parts exactly for a non-empty string made of
      separators only. */
  lemma SplitEmptyOnlyForSeparators(s: string, sep: char)
    ensures Split(s, sep) == [] <==> s != "" && OnlyChar(s, sep)
  {
    if s != "" && OnlyChar(s, sep) {
      assert sep in s by { assert s[0] == sep; }
      SegmentsAllEmpty(s, sep);
    }
    if Split(s, sep) == [] {
      if exists i :: 0 <= i < |s| && s[i] != sep {
        var i :| 0 <= i < |s| && s[i] != sep;
        SegmentsSomeNonEmpty(s, sep, i);
      }
    }
  }

  /** `parts` with `t` added to its last element. */
  function ExtendLast(parts: seq<string>, t: string): (r: seq<string>)
    requires |parts| >= 1
    ensures |r| == |parts|
  {
    parts[..|parts| - 1] + [parts[|parts| - 1] + t]
  }

  lemma ExtendLastEmptyHead(rest: seq<string>, t: string)
    requires |rest| >= 1
    ensures ExtendLast([""] + rest, t) == [""] + ExtendLast(rest, t)
  {
    var p := [""] + rest;
    assert p[..|p| - 1] == [""] + rest[..|rest| - 1];
  }

  lemma ExtendLastJoinedHead(c: char, rest: seq<string>, t: string)
    requires |rest| >= 1
    ensures var e := ExtendLast(rest, t);
            ExtendLast([[c] + rest[0]] + rest[1..], t) == [[c] + e[0]] + e[1..]
  {
    var e := ExtendLast(rest, t);
    var p := [[c] + rest[0]] + rest[1..];
    if |rest| == 1 {
      assert [c] + rest[0] + t == [c] + (rest[0] + t);
    } else {
      assert e[0] == rest[0];
      assert e[1..] == rest[1..|rest| - 1] + [rest[|rest| - 1] + t];
      assert p[..|p| - 1] == [[c] + rest[0]] + rest[1..|rest| - 1];
    }
  }

  /** Appending text without a separator extends the last segment only. */
  lemma {:induction false} SegmentsOfAppend(s: string, t: string, sep: char)
    requires sep !in t
    ensures Segments(s + t, sep) == ExtendLast(Segments(s, sep), t)
    decreases |s|
  {
    if s == "" {
      assert s + t == t;
      SegmentsNoSep(t, sep);
    } else {
      var u := s + t;
      assert u[1..] == s[1..] + t && u[0] == s[0] && u != "";
      SegmentsOfAppend(s[1..], t, sep);
      var R := Segments(s[1..], sep);
      if s[0] == sep {
        ExtendLastEmptyHead(R, t);
      } else {
        ExtendLastJoinedHead(s[0], R, t);
      }
    }
  }

  lemma {:induction false} SegmentsNoSep(t: string, sep: char)
    requires sep !in t
    ensures Segments(t, sep) == [t]
    decreases |t|
  {
    if t != "" {
      assert t[0] != sep by { assert t[0] in t; }
      assert sep !in t[1..] by {
        forall k | 0 <= k < |t[1..]| ensures t[1..][k] != sep { assert t[1..][k] == t[k + 1]; }
      }
      SegmentsNoSep(t[1..], sep);
      assert [t[0]] + t[1..] == t;
    }
  }

  /** The line being written: when a non-empty run of text without a newline
      follows a newline (or starts the text), Java's split gives that run as
      the last part. */
  lemma LastPartOfLine(s: string, t: string)
    requires s == "" || s[|s| - 1] == '\n'
    requires t != "" && '\n' !in t
    ensures LastPart(s + t, '\n') == t
  {
    var u := s + t;
    SegmentsOfAppend(s, t, '\n');
    var segS := Segments(s, '\n');
    var segU := Segments(u, '\n');
    assert segU[|segU| - 1] == segS[|segS| - 1] + t != "";
    assert DropTrailingEmpty(segU) == segU;
    if s == "" {
      assert u == t;
      SegmentsNoSep(t, '\n');
    } else {
      assert u[|s| - 1] == '\n';
      assert segS[|segS| - 1] == "" by { SegmentsOfLastSep(s); }
    }
  }

  /** The quirk in Java's split: a trailing newline does not start a new part,
      so right after a newline is written the previous line is still reported. */
  lemma LastPartIgnoresTrailingNewline(s: string)
    requires exists k :: 0 <= k < |s| && s[k] != '\n'
    ensures LastPart(s + "\n", '\n') == LastPart(s, '\n')
  {
    var u := s + "\n";
    assert '\n' in u by { assert u[|s|] == '\n'; }
    var segS := Segments(s, '\n');
    SegmentsOfAppendSep(s);
    assert Segments(u, '\n') == segS + [""];
    DropLastEmpty(segS);
    assert Split(u, '\n') == DropTrailingEmpty(segS);
    if '\n' !in s {
      SegmentsNoSep(s, '\n');
      assert s != "";
      assert DropTrailingEmpty(segS) == [s];
    }
  }

  lemma SegmentsOfLastSep(s: string)
    requires s != "" && s[|s| - 1] == '\n'
    ensures Segments(s, '\n')[|Segments(s, '\n')| - 1] == ""
  {
    var p := s[..|s| - 1];
    assert s == p + "\n";
    SegmentsOfAppendSep(p);
  }

  lemma DropLastEmpty(parts: seq<string>)
    ensures DropTrailingEmpty(parts + [""]) == DropTrailingEmpty(parts)
  {
    assert (parts + [""])[..|parts|] == parts;
  }

  lemma {:induction false} SegmentsOfAppendSep(s: string)
    ensures Segments(s + "\n", '\n') == Segments(s, '\n') + [""]
    decreases |s|
  {
    if s == "" {
      assert s + "\n" == "\n";
      assert Segments("\n", '\n') == [""] + Segments("", '\n');
    } else {
      assert (s + "\n")[1..] == s[1..] + "\n";
      assert (s + "\n")[0] == s[0];
      SegmentsOfAppendSep(s[1..]);
    }
  }

  /** Text without a newline written after a line that does not end in a
      newline extends that line. */
  lemma LastPartExtend(s: string, t: string)
    requires s == "" || s[|s| - 1] != '\n'
    requires '\n' !in t
    ensures LastPart(s + t, '\n') == LastPart(s, '\n') + t
  {
    var u := s + t;
    if '\n' !in s {
      assert '\n' !in u by {
        forall k | 0 <= k < |u| ensures u[k] != '\n' {
          if k < |s| { assert u[k] == s[k]; } else { assert u[k] == t[k - |s|]; }
        }
      }
    } else {
      assert s != "";
      SegmentsOfAppend(s, t, '\n');
      SegmentsLastNonEmpty(s);
      var segS := Segments(s, '\n');
      var segU := Segments(u, '\n');
      assert segU[|segU| - 1] == segS[|segS| - 1] + t;
      assert DropTrailingEmpty(segS) == segS;
      assert DropTrailingEmpty(segU) == segU;
      assert '\n' in u by {
        var k :| 0 <= k < |s| && s[k] == '\n';
        assert u[k] == s[k];
      }
    }
  }

  /** A text that does not end in a separator has a non-empty last segment. */
  lemma SegmentsLastNonEmpty(s: string)
    requires s != "" && s[|s| - 1] != '\n'
    ensures Segments(s, '\n')[|Segments(s, '\n')| - 1] != ""
  {
    var p := s[..|s| - 1];
    var c := [s[|s| - 1]];
    assert s == p + c;
    SegmentsOfAppend(p, c, '\n');
  }
}
