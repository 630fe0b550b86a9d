/**
 The parts of Go's `strings` package the reconciliation tool relies on:
 splitting on a one-character separator (`strings.Split`) and lower-casing
 (`strings.ToLower`, on ASCII text).
 */
module Text {

  /** The position of the first `c` in `s`, or `|s|` when there is none. */
  function IndexOf(s: string, c: char): (i: nat)
    ensures i <= |s|
    ensures i < |s| ==> s[i] == c
    ensures forall j :: 0 <= j < i ==> s[j] != c
  {
    if |s| == 0 then 0
    else if s[0] == c then 0
    else 1 + IndexOf(s[1..], c)
  }

  /** Glues non-empty `parts` back together with `sep` between neighbours. */
  function Join(parts: seq<string>, sep: char): string
    requires |parts| >= 1
  {
    if |parts| == 1 then parts[0]
    else parts[0] + [sep] + Join(parts[1..], sep)
  }

  /** `strings.Split(s, sep)` for a one-character separator: the maximal
      separator-free pieces of `s`, in order; an empty `s` gives one empty
      piece. */
  function Split(s: string, sep: char): (parts: seq<string>)
    ensures |parts| >= 1
    ensures forall k :: 0 <= k < |parts| ==> sep !in parts[k]
    decreases |s|
  {
    var i := IndexOf(s, sep);
    if i == |s| then [s]
    else [s[..i]] + Split(s[i + 1..], sep)
  }

  /** One step of a split: a text holding the separator is the first piece,
      the separator and a shorter tail, and splits accordingly. */
  lemma SplitStep(s: string, sep: char) returns (head: string, tail: string)
    requires IndexOf(s, sep) < |s|
    ensures sep !in head
    ensures s == head + [sep] + tail
    ensures |tail| < |s|
    ensures Split(s, sep) == [head] + Split(tail, sep)
  {
    var i := IndexOf(s, sep);
    head, tail := s[..i], s[i + 1..];
    assert s == head + [sep] + tail;
  }

  /** Joining the pieces of a split with the separator gives back the text:
      `Join` inverts `Split`. */
  lemma {:induction false} JoinSplit(s: string, sep: char)
    ensures Join(Split(s, sep), sep) == s
    decreases |s|
  {
    if IndexOf(s, sep) < |s| {
      var head, tail := SplitStep(s, sep);
      JoinSplit(tail, sep);
      var rest := Split(tail, sep);
      assert ([head] + rest)[1..] == rest;
    }
  }

  /** A split yields one piece more than there are separators. */
  lemma {:induction false} SplitCount(s: string, sep: char)
    ensures |Split(s, sep)| == multiset(s)[sep] + 1
    decreases |s|
  {
    if IndexOf(s, sep) == |s| {
      assert sep !in s;
      assert multiset(s)[sep] == 0;
    } else {
      var head, tail := SplitStep(s, sep);
      SplitCount(tail, sep);
      assert multiset(s) == multiset(head) + multiset([sep]) + multiset(tail);
      assert multiset(head)[sep] == 0;
    }
  }

  /** A text without the separator is a single piece. */
  lemma SplitNoSeparator(s: string, sep: char)
    requires sep !in s
    ensures Split(s, sep) == [s]
  {
    assert IndexOf(s, sep) == |s|;
  }

  /** The first piece of a split is the text before the first separator. */
  lemma SplitHead(s: string, sep: char)
    ensures Split(s, sep)[0] == s[..IndexOf(s, sep)]
  {
  }

  /** Splitting a text that is a separator-free head, a separator and a tail
      yields the head followed by the pieces of the tail. */
  lemma {:induction false} SplitCons(head: string, sep: char, tail: string)
    requires sep !in head
    ensures Split(head + [sep] + tail, sep) == [head] + Split(tail, sep)
  {
    var s := head + [sep] + tail;
    IndexOfFirst(head, sep, tail);
    assert s[..|head|] == head;
    assert s[|head| + 1..] == tail;
  }

  /** The first separator of `head + [sep] + tail` sits right after a
      separator-free `head`. */
  lemma IndexOfFirst(head: string, sep: char, tail: string)
    requires sep !in head
    ensures IndexOf(head + [sep] + tail, sep) == |head|
  {
    var s := head + [sep] + tail;
    var i := IndexOf(s, sep);
    assert s[|head|] == sep;
  }

  /** Joining separator-free pieces and splitting again gives back the
      pieces: `Split` inverts `Join`. */
  lemma {:induction false} SplitJoin(parts: seq<string>, sep: char)
    requires |parts| >= 1
    requires forall k :: 0 <= k < |parts| ==> sep !in parts[k]
    ensures Split(Join(parts, sep), sep) == parts
    decreases |parts|
  {
    if |parts| == 1 {
      assert IndexOf(parts[0], sep) == |parts[0]|;
    } else {
      SplitJoin(parts[1..], sep);
      SplitCons(parts[0], sep, Join(parts[1..], sep));
    }
  }

  /** The last of a non-empty sequence of pieces. */
  function Last(parts: seq<string>): string
    requires |parts| >= 1
  {
    parts[|parts| - 1]
  }

  /** A separator-free text after the last separator is the last piece,
      whatever comes before that separator. */
  lemma {:induction false} SplitAppendLast(front: string, sep: char, name: string)
    requires sep !in name
    ensures Last(Split(front + [sep] + name, sep)) == name
    decreases |front|
  {
    SplitNoSeparator(name, sep);
    if IndexOf(front, sep) == |front| {
      assert sep !in front;
      SplitCons(front, sep, name);
      LastOfCons(front, [name]);
    } else {
      var head, tail := SplitStep(front, sep);
      var after := tail + [sep] + name;
      SplitAppendLast(tail, sep, name);
      var whole := front + [sep] + name;
      assert Split(whole, sep) == [head] + Split(after, sep) by {
        SeqAssoc(head + [sep], tail, [sep]);
        SeqAssoc(head + [sep], tail + [sep], name);
        SplitCons(head, sep, after);
      }
      LastOfCons(head, Split(after, sep));
    }
  }

  /** Concatenation is associative; stated once so that proofs about
      split and filtered sequences can regroup without unfolding. */
  lemma SeqAssoc<T>(x: seq<T>, y: seq<T>, z: seq<T>)
    ensures x + y + z == x + (y + z)
  {
  }

  /** Putting an element in front does not change the last element. */
  lemma LastOfCons(x: string, r: seq<string>)
    requires |r| >= 1
    ensures Last([x] + r) == Last(r)
  {
    assert ([x] + r)[|r|] == r[|r| - 1];
  }

  /** An ASCII letter's lower-case form; every other character is kept. */
  function LowerChar(c: char): char
  {
    if 'A' <= c <= 'Z' then (c as int - 'A' as int + 'a' as int) as char else c
  }

  /** The text holds no upper-case ASCII letter. */
  predicate IsLower(s: string)
  {
    forall i :: 0 <= i < |s| ==> !('A' <= s[i] <= 'Z')
  }

  /** `strings.ToLower` on ASCII text. */
  function ToLower(s: string): (r: string)
    ensures |r| == |s|
    ensures IsLower(r)
    ensures forall i :: 0 <= i < |s| ==> r[i] == LowerChar(s[i])
  {
    seq(|s|, i requires 0 <= i < |s| => LowerChar(s[i]))
  }

  /** Lower-casing changes nothing in a text that has no upper-case letter,
      so applying it twice is the same as applying it once. */
  lemma ToLowerFixesLower(s: string)
    requires IsLower(s)
    ensures ToLower(s) == s
  {
  }
}
