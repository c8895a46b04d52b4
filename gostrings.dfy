/**
 * The few functions of Go's `strings` package that the compiler relies on:
 * `Split` with a one-character separator, `Join`, `TrimSpace`, `Fields`,
 * `HasPrefix`, `HasSuffix` and `Contains`, over strings as sequences of
 * characters.
 */
module GoStrings {

  /** Go's `unicode.IsSpace`: the ASCII spaces, NEL, NBSP and the other Unicode White_Space code points. */
  predicate IsSpace(c: char) {
    c == ' ' || c == '\t' || c == '\n' || c == '\U{0B}' || c == '\U{0C}' || c == '\r'
    || c == '\U{85}' || c == '\U{A0}' || c == '\U{1680}'
    || ('\U{2000}' <= c <= '\U{200A}')
    || c == '\U{2028}' || c == '\U{2029}' || c == '\U{202F}' || c == '\U{205F}' || c == '\U{3000}'
  }

  predicate AllSpace(s: string) {
    forall i :: 0 <= i < |s| ==> IsSpace(s[i])
  }

  predicate HasPrefix(s: string, p: string) {
    |p| <= |s| && s[..|p|] == p
  }

  predicate HasSuffix(s: string, p: string) {
    |p| <= |s| && s[|s| - |p|..] == p
  }

  /** `sub` occurs in `s` starting at index `i`. */
  predicate OccursAt(s: string, sub: string, i: int) {
    0 <= i <= |s| - |sub| && s[i..i + |sub|] == sub
  }

  /** `strings.Contains(s, sub)`: `sub` occurs somewhere in `s`. */
  predicate Contains(s: string, sub: string)
    ensures Contains(s, sub) <==> exists i :: OccursAt(s, sub, i)
  {
    if HasPrefix(s, sub) then
      assert OccursAt(s, sub, 0);
      true
    else if |s| == 0 then false
    else
      var b := Contains(s[1..], sub);
      assert b ==> exists i :: OccursAt(s, sub, i) by {
        if b {
          var i :| OccursAt(s[1..], sub, i);
          assert s[1..][i..i + |sub|] == s[i + 1..i + 1 + |sub|];
          assert OccursAt(s, sub, i + 1);
        }
      }
      assert (exists i :: OccursAt(s, sub, i)) ==> b by {
        if exists i :: OccursAt(s, sub, i) {
          var i :| OccursAt(s, sub, i);
          assert i != 0;
          assert s[1..][i - 1..i - 1 + |sub|] == s[i..i + |sub|];
          assert OccursAt(s[1..], sub, i - 1);
        }
      }
      b
  }

  /** The end of the run of white space that starts at `i`. */
  function SpaceRunEnd(s: string, i: nat): (j: nat)
    requires i <= |s|
    ensures i <= j <= |s|
    decreases |s| - i
  {
    if i < |s| && IsSpace(s[i]) then SpaceRunEnd(s, i + 1) else i
  }

  /** The run that starts at `i` is all white space and cannot be extended. */
  lemma {:induction false} SpaceRunEndMaximal(s: string, i: nat)
    requires i <= |s|
    ensures forall k :: i <= k < SpaceRunEnd(s, i) ==> IsSpace(s[k])
    ensures SpaceRunEnd(s, i) == |s| || !IsSpace(s[SpaceRunEnd(s, i)])
    decreases |s| - i
  {
    if i < |s| && IsSpace(s[i]) {
      SpaceRunEndMaximal(s, i + 1);
    }
  }

  /** The start of the run of white space that ends at `j`. */
  function SpaceRunStart(s: string, j: nat): (i: nat)
    requires j <= |s|
    ensures i <= j
  {
    if j > 0 && IsSpace(s[j - 1]) then SpaceRunStart(s, j - 1) else j
  }

  /** The run that ends at `j` is all white space and cannot be extended. */
  lemma {:induction false} SpaceRunStartMaximal(s: string, j: nat)
    requires j <= |s|
    ensures forall k :: SpaceRunStart(s, j) <= k < j ==> IsSpace(s[k])
    ensures SpaceRunStart(s, j) == 0 || !IsSpace(s[SpaceRunStart(s, j) - 1])
  {
    if j > 0 && IsSpace(s[j - 1]) {
      SpaceRunStartMaximal(s, j - 1);
    }
  }

  /** `strings.TrimSpace`: `s` without its leading and trailing white space. */
  function TrimSpace(s: string): (r: string)
    ensures |r| <= |s|
  {
    var a := SpaceRunEnd(s, 0);
    var b := SpaceRunStart(s, |s|);
    if a < b then s[a..b] else ""
  }

  /**
   * What `TrimSpace` leaves: a piece of `s` that neither starts nor ends
   * with white space, and is empty exactly when `s` is all white space.
   */
  lemma TrimSpaceFacts(s: string)
    ensures var r := TrimSpace(s);
      && (r == "" || (!IsSpace(r[0]) && !IsSpace(r[|r| - 1])))
      && (r == "" <==> AllSpace(s))
      && exists i :: OccursAt(s, r, i)
  {
    var a := SpaceRunEnd(s, 0);
    var b := SpaceRunStart(s, |s|);
    SpaceRunEndMaximal(s, 0);
    SpaceRunStartMaximal(s, |s|);
    if a < b {
      assert OccursAt(s, s[a..b], a);
      assert !IsSpace(s[a]);
    } else {
      assert OccursAt(s, "", 0);
    }
  }

  /**
   * `strings.Split(s, string(c))`: the pieces of `s` between occurrences of
   * `c`; never empty (the empty string splits into one empty piece).
   */
  function Split(s: string, c: char): (parts: seq<string>)
    ensures |parts| >= 1
    ensures forall k :: 0 <= k < |parts| ==> c !in parts[k]
  {
    if |s| == 0 then [""]
    else
      var rest := Split(s[1..], c);
      if s[0] == c then [""] + rest else [[s[0]] + rest[0]] + rest[1..]
  }

  /** `strings.Join(parts, string(c))`. */
  function Join(parts: seq<string>, c: char): string {
    if |parts| == 0 then ""
    else if |parts| == 1 then parts[0]
    else parts[0] + [c] + Join(parts[1..], c)
  }

  /** Joining the pieces of a split gives back the original string. */
  lemma {:induction false} JoinSplit(s: string, c: char)
    ensures Join(Split(s, c), c) == s
  {
    if |s| > 0 {
      JoinSplit(s[1..], c);
      var rest := Split(s[1..], c);
      if s[0] == c {
        assert Split(s, c) == [""] + rest;
        assert s == [c] + s[1..];
      } else {
        var parts := Split(s, c);
        if |rest| == 1 {
          assert parts == [[s[0]] + rest[0]];
          assert s == [s[0]] + s[1..];
        } else {
          assert parts[1..] == rest[1..];
          assert Join(rest, c) == rest[0] + [c] + Join(rest[1..], c);
          assert s == [s[0]] + s[1..];
        }
      }
    }
  }

  /** Splitting a join of separator-free pieces gives back the pieces. */
  lemma {:induction false} SplitJoin(parts: seq<string>, c: char)
    requires |parts| >= 1
    requires forall k :: 0 <= k < |parts| ==> c !in parts[k]
    ensures Split(Join(parts, c), c) == parts
  {
    if |parts| == 1 {
      SplitNoSeparator(parts[0], c);
    } else {
      SplitJoin(parts[1..], c);
      SplitAppend(parts[0], Join(parts[1..], c), c);
      assert parts == [parts[0]] + parts[1..];
    }
  }

  /** A string without the separator splits into itself. */
  lemma {:induction false} SplitNoSeparator(s: string, c: char)
    requires c !in s
    ensures Split(s, c) == [s]
  {
    if |s| > 0 {
      SplitNoSeparator(s[1..], c);
      assert s == [s[0]] + s[1..];
    }
  }

  /** Splitting `a + c + b`, where `a` has no separator, puts `a` first. */
  lemma {:induction false} SplitAppend(a: string, b: string, c: char)
    requires c !in a
    ensures Split(a + [c] + b, c) == [a] + Split(b, c)
  {
    if |a| == 0 {
      assert a + [c] + b == [c] + b;
      assert ([c] + b)[1..] == b;
    } else {
      SplitAppend(a[1..], b, c);
      assert (a + [c] + b)[1..] == a[1..] + [c] + b;
      assert a == [a[0]] + a[1..];
    }
  }

  /**
   * The first piece of a split is the longest prefix free of the separator:
   * either the whole string, or the text before the first occurrence of `c`.
   */
  lemma {:induction false} SplitFirst(s: string, c: char)
    ensures HasPrefix(s, Split(s, c)[0])
    ensures Split(s, c)[0] == s || (|Split(s, c)[0]| < |s| && s[|Split(s, c)[0]|] == c)
  {
    if |s| > 0 {
      SplitFirst(s[1..], c);
    }
  }

  predicate NoSpace(w: string) {
    forall i :: 0 <= i < |w| ==> !IsSpace(w[i])
  }

  /** The white-space-free runs of `s`, each one extended by the characters after it. */
  function Runs(s: string): (r: seq<string>)
    ensures |r| >= 1
    ensures forall k :: 0 <= k < |r| ==> NoSpace(r[k])
  {
    if |s| == 0 then [""]
    else
      var rest := Runs(s[1..]);
      if IsSpace(s[0]) then [""] + rest else [[s[0]] + rest[0]] + rest[1..]
  }

  function NonEmpty(ws: seq<string>): (r: seq<string>)
    ensures forall k :: 0 <= k < |r| ==> r[k] != "" && r[k] in ws
  {
    if |ws| == 0 then []
    else if ws[0] == "" then NonEmpty(ws[1..])
    else [ws[0]] + NonEmpty(ws[1..])
  }

  /** `strings.Fields`: the maximal runs of non-space characters of `s`, in order. */
  function Fields(s: string): (r: seq<string>)
    ensures forall k :: 0 <= k < |r| ==> r[k] != "" && NoSpace(r[k])
  {
    NonEmpty(Runs(s))
  }
}
