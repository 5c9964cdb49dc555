/** String joining as Python's `sep.join(xs)` does it, and the splitting that
    reads such a string back. */
module Text {

  /** `sep.join(xs)`: the elements of `xs` with one `sep` between neighbours.
      The joined string starts with the first element and has `sep` right after
      it when more elements follow. */
  function Join(xs: seq<string>, sep: char): (r: string)
    ensures |xs| > 0 ==> |xs[0]| <= |r| && r[..|xs[0]|] == xs[0]
    ensures |xs| > 1 ==> |xs[0]| < |r| && r[|xs[0]|] == sep
    decreases |xs|
  {
    if |xs| == 0 then ""
    else if |xs| == 1 then xs[0]
    else xs[0] + [sep] + Join(xs[1..], sep)
  }

  /** The pieces of `s` between occurrences of `sep` (like Python's `s.split(sep)`),
      defined character by character. */
  function Split(s: string, sep: char): (r: seq<string>)
    ensures |r| > 0
    decreases |s|
  {
    if |s| == 0 then [""]
    else
      var rest := Split(s[1..], sep);
      if s[0] == sep then [""] + rest
      else [[s[0]] + rest[0]] + rest[1..]
  }

  /** A string without `sep` is a single piece. */
  lemma {:induction false} SplitNoSep(s: string, sep: char)
    requires sep !in s
    ensures Split(s, sep) == [s]
    decreases |s|
  {
    if |s| > 0 {
      assert sep !in s[1..] by {
        forall k | 0 <= k < |s| - 1 ensures s[1..][k] != sep { assert s[1..][k] == s[k + 1]; }
      }
      SplitNoSep(s[1..], sep);
      assert [s[0]] + s[1..] == s;
    }
  }

  /** Text before the first separator is the first piece. */
  lemma {:induction false} SplitFirst(a: string, b: string, sep: char)
    requires sep !in a
    ensures Split(a + [sep] + b, sep) == [a] + Split(b, sep)
    decreases |a|
  {
    if |a| == 0 {
      SplitCons(sep, b, sep);
      assert a + [sep] + b == [sep] + b;
    } else {
      var t := a[1..] + [sep] + b;
      assert sep !in a[1..] by {
        assert forall k :: 0 <= k < |a| - 1 ==> a[1..][k] == a[k + 1];
      }
      SplitFirst(a[1..], b, sep);
      SplitCons(a[0], t, sep);
      assert a + [sep] + b == [a[0]] + t;
      assert [a[0]] + a[1..] == a;
    }
  }

  /** Splitting a string that starts with character c. */
  lemma SplitCons(c: char, t: string, sep: char)
    ensures c == sep ==> Split([c] + t, sep) == [""] + Split(t, sep)
    ensures c != sep ==> Split([c] + t, sep) == [[c] + Split(t, sep)[0]] + Split(t, sep)[1..]
  {
  }

  /** Splitting undoes joining, provided no element contains the separator and
      the list is not empty (`Join([]) == Join([""]) == ""`). */
  lemma {:induction false} SplitJoin(xs: seq<string>, sep: char)
    requires |xs| > 0
    requires forall i :: 0 <= i < |xs| ==> sep !in xs[i]
    ensures Split(Join(xs, sep), sep) == xs
    decreases |xs|
  {
    if |xs| == 1 {
      SplitNoSep(xs[0], sep);
    } else {
      SplitJoin(xs[1..], sep);
      SplitFirst(xs[0], Join(xs[1..], sep), sep);
      assert [xs[0]] + xs[1..] == xs;
    }
  }

  /** A character that is not the separator occurs in the joined string only if
      it occurs in some element. */
  lemma {:induction false} JoinChars(xs: seq<string>, sep: char, c: char)
    requires c != sep
    requires forall i :: 0 <= i < |xs| ==> c !in xs[i]
    ensures c !in Join(xs, sep)
    decreases |xs|
  {
    if |xs| > 1 {
      JoinChars(xs[1..], sep, c);
    }
  }

  /** Every element followed by `term`, all concatenated: unless there are no
      elements, the result ends with a terminator. */
  function Terminated(xs: seq<string>, term: char): (r: string)
    ensures |xs| > 0 ==> |r| > 0 && r[|r| - 1] == term
    decreases |xs|
  {
    if |xs| == 0 then "" else xs[0] + [term] + Terminated(xs[1..], term)
  }

  lemma {:induction false} TerminatedAppend(xs: seq<string>, ys: seq<string>, term: char)
    ensures Terminated(xs + ys, term) == Terminated(xs, term) + Terminated(ys, term)
    decreases |xs|
  {
    if |xs| == 0 {
      assert xs + ys == ys;
    } else {
      TerminatedAppend(xs[1..], ys, term);
      var zs := xs + ys;
      assert zs[0] == xs[0] && zs[1..] == xs[1..] + ys;
      assert Terminated(zs, term) == xs[0] + [term] + Terminated(xs[1..] + ys, term);
    }
  }

  /** Adding one element adds it and a terminator at the end. */
  lemma TerminatedSnoc(xs: seq<string>, x: string, term: char)
    ensures Terminated(xs + [x], term) == Terminated(xs, term) + x + [term]
  {
    TerminatedAppend(xs, [x], term);
    assert [x][1..] == [];
  }

  /** Splitting a terminated list at the terminator gives the elements back,
      followed by the empty piece after the last terminator. */
  lemma {:induction false} SplitTerminated(xs: seq<string>, term: char)
    requires forall i :: 0 <= i < |xs| ==> term !in xs[i]
    ensures Split(Terminated(xs, term), term) == xs + [""]
    decreases |xs|
  {
    if |xs| > 0 {
      SplitTerminated(xs[1..], term);
      SplitFirst(xs[0], Terminated(xs[1..], term), term);
      assert [xs[0]] + (xs[1..] + [""]) == xs + [""];
    }
  }
}
