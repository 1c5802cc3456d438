/** The Python 2 `str` operations the report pipeline relies on:
    `split` with an explicit separator, `splitlines`, `strip` and the
    substring test `sub in s`. */
module Strings {

  const Tab: char := '\t'
  const Newline: char := '\n'

  /** The characters Python 2's `str.strip()` removes (`isspace` on bytes). */
  predicate IsSpace(c: char)
  {
    c == ' ' || c == '\t' || c == '\n' || c == '\r' || c == '\U{000B}' || c == '\U{000C}'
  }

  predicate AllSpace(s: string)
  {
    forall k :: 0 <= k < |s| ==> IsSpace(s[k])
  }

  /** Neither end of `s` is whitespace. */
  predicate IsStripped(s: string)
  {
    s == [] || (!IsSpace(s[0]) && !IsSpace(s[|s| - 1]))
  }

  /** Number of occurrences of `c` in `s`. */
  function Count(s: string, c: char): nat
  {
    multiset(s)[c]
  }

  // ---------------------------------------------------------------------------
  // str.split(sep)

  /** `s.split(sep)` with an explicit one-character separator: every
      occurrence of `sep` ends a field and empty fields are kept. */
  function Split(s: string, sep: char): (fields: seq<string>)
    ensures |fields| >= 1
    ensures forall i :: 0 <= i < |fields| ==> sep !in fields[i]
  {
    if s == [] then [[]]
    else
      var rest := Split(s[1..], sep);
      if s[0] == sep then [[]] + rest
      else [[s[0]] + rest[0]] + rest[1..]
  }

  /** `sep.join(fields)`, the inverse of `Split`. */
  function Join(fields: seq<string>, sep: char): string
  {
    if fields == [] then []
    else if |fields| == 1 then fields[0]
    else fields[0] + [sep] + Join(fields[1..], sep)
  }

  /** Joining the fields of a split gives back the original text. */
  lemma {:induction false} JoinOfSplit(s: string, sep: char)
    ensures Join(Split(s, sep), sep) == s
  {
    if s != [] {
      var rest := Split(s[1..], sep);
      JoinOfSplit(s[1..], sep);
      if s[0] == sep {
        assert Split(s, sep) == [[]] + rest;
        assert Join(Split(s, sep), sep) == [] + [sep] + Join(rest, sep);
      } else {
        if |rest| == 1 {
          assert Join(Split(s, sep), sep) == [s[0]] + rest[0];
        } else {
          var fields := Split(s, sep);
          assert fields[1..] == rest[1..];
          assert Join(rest, sep) == rest[0] + [sep] + Join(rest[1..], sep);
          assert Join(fields, sep) == [s[0]] + rest[0] + [sep] + Join(rest[1..], sep);
        }
      }
    }
  }

  /** Splitting a join of separator-free fields gives back those fields. */
  lemma {:induction false} SplitOfJoin(fields: seq<string>, sep: char)
    requires |fields| >= 1
    requires forall i :: 0 <= i < |fields| ==> sep !in fields[i]
    ensures Split(Join(fields, sep), sep) == fields
  {
    if |fields| == 1 {
      SplitOfSepFree(fields[0], [], sep);
      assert fields[0] + [] == fields[0];
      assert Split([], sep) == [[]];
    } else {
      SplitOfJoin(fields[1..], sep);
      var tail := Join(fields[1..], sep);
      var b := [sep] + tail;
      SplitOfSepFree(fields[0], b, sep);
      assert b[1..] == tail;
      assert Split(b, sep) == [[]] + fields[1..];
      assert Split(b, sep)[0] == [] && Split(b, sep)[1..] == fields[1..];
      assert fields[0] + Split(b, sep)[0] == fields[0];
      assert Join(fields, sep) == fields[0] + b;
      assert fields == [fields[0]] + fields[1..];
    }
  }

  /** A separator-free prefix glues onto the first field of what follows
      it, and nothing else changes. */
  lemma {:induction false} SplitOfSepFree(a: string, b: string, sep: char)
    requires sep !in a
    ensures Split(a + b, sep) == [a + Split(b, sep)[0]] + Split(b, sep)[1..]
  {
    if a == [] {
      assert a + b == b;
      assert Split(b, sep) == [Split(b, sep)[0]] + Split(b, sep)[1..];
      assert a + Split(b, sep)[0] == Split(b, sep)[0];
    } else {
      SplitOfSepFree(a[1..], b, sep);
      var s := a + b;
      assert s[0] == a[0] && s[0] != sep;
      assert s[1..] == a[1..] + b;
      var rest := Split(s[1..], sep);
      assert Split(s, sep) == [[a[0]] + rest[0]] + rest[1..];
      assert [a[0]] + (a[1..] + Split(b, sep)[0]) == a + Split(b, sep)[0];
    }
  }

  /** A line splits into exactly `Count(s, sep) + 1` fields; in particular it
      splits into two fields exactly when it holds one separator. */
  lemma {:induction false} SplitCount(s: string, sep: char)
    ensures |Split(s, sep)| == Count(s, sep) + 1
  {
    if s != [] {
      SplitCount(s[1..], sep);
      assert s == [s[0]] + s[1..];
      assert multiset(s) == multiset([s[0]]) + multiset(s[1..]);
    }
  }

  // ---------------------------------------------------------------------------
  // str.splitlines()

  /** `s.splitlines()` with `\n` as the only line terminator: an empty text has
      no lines, and a final terminator does not start another line. */
  function SplitLines(s: string): (lines: seq<string>)
    ensures forall i :: 0 <= i < |lines| ==> Newline !in lines[i]
    ensures lines == [] <==> s == []
  {
    if s == [] then []
    else
      var parts := Split(s, Newline);
      if s[|s| - 1] == Newline then
        SplitNonEmptyLast(s, Newline);
        parts[..|parts| - 1]
      else parts
  }

  /** A text whose last character is the separator splits into at least two
      fields, the last of them empty. */
  lemma {:induction false} SplitNonEmptyLast(s: string, sep: char)
    requires s != [] && s[|s| - 1] == sep
    ensures |Split(s, sep)| >= 2 && Split(s, sep)[|Split(s, sep)| - 1] == []
  {
    if |s| == 1 {
      assert Split(s[1..], sep) == [[]];
    } else {
      SplitNonEmptyLast(s[1..], sep);
    }
  }

  /** Writes each line followed by a newline: the text `SplitLines` reads. */
  function JoinLines(lines: seq<string>): string
  {
    if lines == [] then [] else lines[0] + [Newline] + JoinLines(lines[1..])
  }

  lemma {:induction false} JoinLinesEndsWithNewline(lines: seq<string>)
    requires lines != []
    ensures |JoinLines(lines)| > 0 && JoinLines(lines)[|JoinLines(lines)| - 1] == Newline
  {
    if |lines| > 1 {
      JoinLinesEndsWithNewline(lines[1..]);
    }
  }

  lemma {:induction false} JoinLinesAsJoin(lines: seq<string>)
    requires lines != []
    ensures JoinLines(lines) == Join(lines + [[]], Newline)
  {
    if |lines| > 1 {
      JoinLinesAsJoin(lines[1..]);
      assert (lines + [[]])[1..] == lines[1..] + [[]];
    } else {
      assert lines + [[]] == [lines[0], []];
    }
  }

  /** Reading back lines that were written one per line gives the same lines. */
  lemma {:induction false} SplitLinesOfJoinLines(lines: seq<string>)
    requires forall i :: 0 <= i < |lines| ==> Newline !in lines[i]
    ensures SplitLines(JoinLines(lines)) == lines
  {
    if lines != [] {
      var s := JoinLines(lines);
      JoinLinesAsJoin(lines);
      SplitOfJoin(lines + [[]], Newline);
      JoinLinesEndsWithNewline(lines);
      assert (lines + [[]])[..|lines|] == lines;
    }
  }

  // ---------------------------------------------------------------------------
  // str.strip()

  /** `s.lstrip()`. */
  function TrimStart(s: string): (r: string)
    ensures r == [] || !IsSpace(r[0])
  {
    if s != [] && IsSpace(s[0]) then TrimStart(s[1..]) else s
  }

  /** `s.rstrip()`. */
  function TrimEnd(s: string): (r: string)
    ensures r == [] || !IsSpace(r[|r| - 1])
  {
    if s != [] && IsSpace(s[|s| - 1]) then TrimEnd(s[..|s| - 1]) else s
  }

  /** `TrimStart` removes a whitespace prefix and keeps the rest. */
  lemma {:induction false} TrimStartRemovesPrefix(s: string)
    ensures |TrimStart(s)| <= |s| && TrimStart(s) == s[|s| - |TrimStart(s)|..]
    ensures AllSpace(s[..|s| - |TrimStart(s)|])
  {
    if s != [] && IsSpace(s[0]) {
      TrimStartRemovesPrefix(s[1..]);
      assert s[1..][|s| - 1 - |TrimStart(s)|..] == s[|s| - |TrimStart(s)|..];
      assert forall k :: 0 < k < |s| - |TrimStart(s)| ==> s[k] == s[1..][k - 1];
    }
  }

  /** `TrimEnd` removes a whitespace suffix and keeps the rest. */
  lemma {:induction false} TrimEndRemovesSuffix(s: string)
    ensures |TrimEnd(s)| <= |s| && TrimEnd(s) == s[..|TrimEnd(s)|]
    ensures AllSpace(s[|TrimEnd(s)|..])
  {
    if s != [] && IsSpace(s[|s| - 1]) {
      TrimEndRemovesSuffix(s[..|s| - 1]);
    }
  }

  /** `s.strip()`: `s` without its leading and trailing whitespace. */
  function Strip(s: string): (r: string)
    ensures IsStripped(r)
  {
    var t := TrimStart(s);
    TrimEndRemovesSuffix(t);
    TrimEnd(t)
  }

  /** What `Strip` removes: the result is a slice of `s`, and everything before
      and after that slice is whitespace. Together with `IsStripped` of the
      result, this says the longest whitespace prefix and suffix are removed. */
  lemma StripRemovesOnlySpace(s: string)
    ensures var r := Strip(s);
            exists i | 0 <= i <= |s| - |r| :: s[i..i + |r|] == r && AllSpace(s[..i]) && AllSpace(s[i + |r|..])
  {
    var t := TrimStart(s);
    var r := TrimEnd(t);
    TrimStartRemovesPrefix(s);
    TrimEndRemovesSuffix(t);
    var i := |s| - |t|;
    assert s[i..i + |r|] == r;
    assert s[i + |r|..] == t[|r|..];
  }

  /** A text with no surrounding whitespace is left unchanged by `Strip`. */
  lemma StripOfStripped(s: string)
    requires IsStripped(s)
    ensures Strip(s) == s
  {
  }

  /** Stripping twice is stripping once. */
  lemma StripIdempotent(s: string)
    ensures Strip(Strip(s)) == Strip(s)
  {
    StripOfStripped(Strip(s));
  }

  // ---------------------------------------------------------------------------
  // sub in s

  /** Python's substring test `sub in s`. */
  predicate Contains(s: string, sub: string)
  {
    exists i | 0 <= i <= |s| - |sub| :: sub <= s[i..]
  }

  /** A text contains each of its own pieces. */
  lemma ContainsMiddle(a: string, sub: string, b: string)
    ensures Contains(a + sub + b, sub)
  {
    assert sub <= (a + sub + b)[|a|..];
  }
}
