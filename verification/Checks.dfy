/**
 isChecksEqual of go/internal/engine.go: posture checks are compared by sorting the files of each check, joining them
 with '|', and sorting the joined texts. When this comparison is one of multisets, and when it is not.
 */
module Checks {
  import opened Text
  import opened Bags

  /** The files of one check. */
  type Check = seq<string>

  // ---- sorting strings ----

  /** Strings in lexicographic order. */
  predicate Leq(a: string, b: string) {
    a == "" || (b != "" && (a[0] < b[0] || (a[0] == b[0] && Leq(a[1..], b[1..]))))
  }

  lemma {:induction false} LeqTotal(a: string, b: string)
    ensures Leq(a, b) || Leq(b, a)
    ensures Leq(a, b) && Leq(b, a) ==> a == b
  {
    if a != "" && b != "" && a[0] == b[0] {
      LeqTotal(a[1..], b[1..]);
      assert a == [a[0]] + a[1..] && b == [b[0]] + b[1..];
    }
  }

  /** A string comes before its continuations, and before what has a greater character where they first differ. */
  lemma {:induction false} LeqExactly(a: string, b: string)
    ensures Leq(a, b) <==>
            a <= b || exists i :: 0 <= i < |a| && i < |b| && a[..i] == b[..i] && a[i] < b[i]
  {
    if a != "" && b != "" {
      if a[0] < b[0] {
        assert a[..0] == b[..0];
      } else if a[0] == b[0] {
        LeqExactly(a[1..], b[1..]);
        assert a == [a[0]] + a[1..] && b == [b[0]] + b[1..];
        if i :| 0 <= i < |a[1..]| && i < |b[1..]| && a[1..][..i] == b[1..][..i] && a[1..][i] < b[1..][i] {
          assert a[..i + 1] == [a[0]] + a[1..][..i] && b[..i + 1] == [b[0]] + b[1..][..i];
        }
        if i :| 0 <= i < |a| && i < |b| && a[..i] == b[..i] && a[i] < b[i] {
          assert a[1..][..i - 1] == a[..i][1..] && b[1..][..i - 1] == b[..i][1..];
        }
      } else if i :| 0 <= i < |a| && i < |b| && a[..i] == b[..i] && a[i] < b[i] {
        assert i > 0 ==> a[..i][0] == b[..i][0];
      }
    }
  }

  lemma {:induction false} LeqTransitive(a: string, b: string, c: string)
    requires Leq(a, b) && Leq(b, c)
    ensures Leq(a, c)
  {
    if a != "" && a[0] == b[0] && b[0] == c[0] {
      LeqTransitive(a[1..], b[1..], c[1..]);
    }
  }

  predicate AllLeq(s: seq<string>, x: string) {
    forall y :: y in s ==> Leq(y, x)
  }

  predicate Ordered(s: seq<string>) {
    s == [] || (Ordered(s[..|s| - 1]) && AllLeq(s, s[|s| - 1]))
  }

  /** The string put in its place, after equal ones. */
  function Insert(x: string, s: seq<string>): (r: seq<string>)
    ensures |r| == |s| + 1
  {
    if s == [] || Leq(s[|s| - 1], x) then s + [x]
    else Insert(x, s[..|s| - 1]) + [s[|s| - 1]]
  }

  /** sort.Strings */
  function Sort(s: seq<string>): (r: seq<string>)
    ensures |r| == |s|
  {
    if s == [] then [] else Insert(s[|s| - 1], Sort(s[..|s| - 1]))
  }

  lemma {:induction false} InsertBag(x: string, s: seq<string>)
    ensures multiset(Insert(x, s)) == multiset(s) + multiset{x}
  {
    hide Leq;
    if s != [] && !Leq(s[|s| - 1], x) {
      InsertBag(x, s[..|s| - 1]);
      LastBag(s);
    }
  }

  lemma Appended(s: seq<string>, x: string)
    requires Ordered(s) && AllLeq(s, x)
    ensures Ordered(s + [x])
  {
    LeqTotal(x, x);
    hide Leq;
    assert (s + [x])[..|s|] == s;
  }

  lemma LeqLastLeq(s: seq<string>, x: string)
    requires s != [] && AllLeq(s, s[|s| - 1]) && Leq(s[|s| - 1], x)
    ensures AllLeq(s, x)
  {
    hide Leq;
    forall y | y in s
      ensures Leq(y, x)
    {
      LeqTransitive(y, s[|s| - 1], x);
    }
  }

  lemma {:induction false} InsertOrdered(x: string, s: seq<string>)
    requires Ordered(s)
    ensures Ordered(Insert(x, s))
  {
    hide Leq, AllLeq, Ordered;
    if s == [] {
      NothingOrdered(x);
      Appended([], x);
    } else if Leq(s[|s| - 1], x) {
      OrderedParts(s);
      LeqLastLeq(s, x);
      Appended(s, x);
    } else {
      var front, last := s[..|s| - 1], s[|s| - 1];
      OrderedParts(s);
      InsertOrdered(x, front);
      LeqTotal(last, x);
      InsertedLeq(x, front, last);
      Appended(Insert(x, front), last);
    }
  }

  lemma NothingOrdered(x: string)
    ensures Ordered([]) && AllLeq([], x)
  {
  }

  lemma OrderedParts(s: seq<string>)
    requires Ordered(s) && s != []
    ensures Ordered(s[..|s| - 1]) && AllLeq(s, s[|s| - 1]) && AllLeq(s[..|s| - 1], s[|s| - 1])
  {
    hide Leq;
  }

  lemma InsertedLeq(x: string, s: seq<string>, last: string)
    requires AllLeq(s, last) && Leq(x, last)
    ensures AllLeq(Insert(x, s), last)
  {
    hide Leq, Insert;
    InsertBag(x, s);
    forall y | y in Insert(x, s)
      ensures Leq(y, last)
    {
      assert y in multiset(Insert(x, s));
    }
  }

  /** Sorting orders the strings and loses none. */
  lemma {:induction false} SortKeeps(s: seq<string>)
    ensures multiset(Sort(s)) == multiset(s) && Ordered(Sort(s))
  {
    hide Leq, Insert, AllLeq;
    if s != [] {
      SortKeeps(s[..|s| - 1]);
      InsertBag(s[|s| - 1], Sort(s[..|s| - 1]));
      InsertOrdered(s[|s| - 1], Sort(s[..|s| - 1]));
      LastBag(s);
    }
  }

  /** There is one ordered list of a bag of strings. */
  lemma {:induction false} OrderedIsCanonical(a: seq<string>, b: seq<string>)
    requires Ordered(a) && Ordered(b) && multiset(a) == multiset(b)
    ensures a == b
  {
    hide Leq, AllLeq, Ordered;
    assert |multiset(a)| == |a| && |multiset(b)| == |b|;
    if a != [] {
      OrderedParts(a);
      OrderedParts(b);
      SameGreatest(a, b);
      LastBag(a);
      LastBag(b);
      assert multiset(a[..|a| - 1]) == multiset(a) - multiset{a[|a| - 1]};
      assert multiset(b[..|b| - 1]) == multiset(b) - multiset{b[|b| - 1]};
      OrderedIsCanonical(a[..|a| - 1], b[..|b| - 1]);
      assert a == a[..|a| - 1] + [a[|a| - 1]] && b == b[..|b| - 1] + [b[|b| - 1]];
    }
  }

  lemma SameGreatest(a: seq<string>, b: seq<string>)
    requires a != [] && b != [] && Ordered(a) && Ordered(b) && multiset(a) == multiset(b)
    ensures a[|a| - 1] == b[|b| - 1]
  {
    hide Leq, AllLeq, Ordered;
    var x, y := a[|a| - 1], b[|b| - 1];
    OrderedParts(a);
    OrderedParts(b);
    assert x in multiset(b) && y in multiset(a);
    LeqFromAll(a, y, x);
    LeqFromAll(b, x, y);
    LeqTotal(x, y);
  }

  lemma LeqFromAll(s: seq<string>, y: string, x: string)
    requires AllLeq(s, x) && y in s
    ensures Leq(y, x)
  {
  }

  /** Two lists sort alike exactly when they are permutations of each other. */
  lemma SortsAlike(a: seq<string>, b: seq<string>)
    ensures Sort(a) == Sort(b) <==> multiset(a) == multiset(b)
  {
    hide Sort, Ordered;
    SortKeeps(a);
    SortKeeps(b);
    if multiset(a) == multiset(b) {
      OrderedIsCanonical(Sort(a), Sort(b));
    }
  }

  lemma {:induction false} InsertFromBack(x: string, s: seq<string>, j: nat)
    requires j <= |s| && forall m :: j <= m < |s| ==> !Leq(s[m], x)
    ensures Insert(x, s) == Insert(x, s[..j]) + s[j..]
  {
    hide Leq;
    if j == |s| {
      assert s[..j] == s;
    } else {
      assert !Leq(s[|s| - 1], x);
      InsertFromBack(x, s[..|s| - 1], j);
      assert s[..|s| - 1][..j] == s[..j];
      assert s[j..] == s[..|s| - 1][j..] + [s[|s| - 1]];
    }
  }

  lemma InsertHere(x: string, s: seq<string>)
    requires s == [] || Leq(s[|s| - 1], x)
    ensures Insert(x, s) == s + [x]
  {
  }

  /** Sorts an array in place. */
  method SortStrings(a: array<string>)
    modifies a
    ensures a[..] == Sort(old(a[..]))
  {
    hide Leq, Insert;
    ghost var s := a[..];
    assert s[..0] == [];
    for i := 0 to a.Length
      invariant a[..i] == Sort(s[..i]) && a[i..] == s[i..]
    {
      assert a[i] == a[i..][0];
      InsertInPlace(a, i);
      SortOneMore(s, i);
      assert s[i + 1..] == s[i..][1..];
    }
    assert s[..a.Length] == s && a[..a.Length] == a[..];
  }

  lemma SortOneMore(s: seq<string>, i: nat)
    requires i < |s|
    ensures Sort(s[..i + 1]) == Insert(s[i], Sort(s[..i]))
  {
    hide Insert;
    assert s[..i + 1][..i] == s[..i];
  }

  /** Moves the element at an index back to its place among the ordered ones before it. */
  method InsertInPlace(a: array<string>, i: nat)
    requires i < a.Length
    modifies a
    ensures a[..i + 1] == Insert(old(a[i]), old(a[..i])) && a[i + 1..] == old(a[i + 1..])
  {
    hide Leq, Insert;
    var x, j := a[i], i;
    ghost var pre := a[..];
    while j > 0 && !Leq(a[j - 1], x)
      invariant 0 <= j <= i
      invariant forall m :: 0 <= m < j ==> a[m] == pre[m]
      invariant forall m :: j <= m < i ==> a[m + 1] == pre[m] && !Leq(pre[m], x)
      invariant forall m :: i < m < a.Length ==> a[m] == pre[m]
    {
      a[j] := a[j - 1];
      j := j - 1;
    }
    a[j] := x;
    PutBack(pre, a[..], i, j);
  }

  /** The elements after an index moved up by one, and the moved one put there. */
  lemma PutBack(pre: seq<string>, post: seq<string>, i: nat, j: nat)
    requires j <= i < |pre| == |post| && (j > 0 ==> Leq(pre[j - 1], pre[i]))
    requires forall m :: 0 <= m < j ==> post[m] == pre[m]
    requires forall m :: j <= m < i ==> post[m + 1] == pre[m] && !Leq(pre[m], pre[i])
    requires forall m :: i < m < |pre| ==> post[m] == pre[m]
    requires post[j] == pre[i]
    ensures post[..i + 1] == Insert(pre[i], pre[..i]) && post[i + 1..] == pre[i + 1..]
  {
    hide Leq, Insert;
    var x, s := pre[i], pre[..i];
    InsertFromBack(x, s, j);
    InsertHere(x, s[..j]);
    assert post[..i + 1] == s[..j] + [x] + s[j..];
  }

  // ---- comparing checks ----

  function Joined(check: Check): string {
    Join(Sort(check), '|')
  }

  function AllJoined(checks: seq<Check>): (r: seq<string>)
    ensures |r| == |checks| && forall i :: 0 <= i < |checks| ==> r[i] == Joined(checks[i])
  {
    if checks == [] then [] else AllJoined(checks[..|checks| - 1]) + [Joined(checks[|checks| - 1])]
  }

  function Normalized(checks: seq<Check>): seq<string> {
    Sort(AllJoined(checks))
  }

  predicate ChecksEqual(a: seq<Check>, b: seq<Check>) {
    Normalized(a) == Normalized(b)
  }

  method SortedCopy(files: seq<string>) returns (sorted: seq<string>)
    ensures sorted == Sort(files)
  {
    hide Sort;
    var clone := new string[|files|](i requires 0 <= i < |files| => files[i]);
    assert clone[..] == files;
    SortStrings(clone);
    sorted := clone[..];
  }

  method Normalize(checks: seq<Check>) returns (normalized: seq<string>)
    ensures normalized == Normalized(checks)
  {
    hide Sort, Join;
    var texts: seq<string> := [];
    for i := 0 to |checks|
      invariant texts == AllJoined(checks[..i])
    {
      var sortedFiles := SortedCopy(checks[i]);
      texts := texts + [Join(sortedFiles, '|')];
      assert checks[..i + 1][..i] == checks[..i];
    }
    assert checks[..|checks|] == checks;
    normalized := SortedCopy(texts);
  }

  method IsChecksEqual(checks1: seq<Check>, checks2: seq<Check>) returns (equal: bool)
    ensures equal <==> ChecksEqual(checks1, checks2)
  {
    var n1 := Normalize(checks1);
    var n2 := Normalize(checks2);
    equal := n1 == n2;
  }

  // ---- what the comparison means ----

  function FileBags(checks: seq<Check>): (r: seq<multiset<string>>)
    ensures |r| == |checks| && forall i :: 0 <= i < |checks| ==> r[i] == multiset(checks[i])
  {
    if checks == [] then [] else FileBags(checks[..|checks| - 1]) + [multiset(checks[|checks| - 1])]
  }

  /** A list of checks regardless of the order of checks and of the files in each. */
  function Bag(checks: seq<Check>): multiset<multiset<string>> {
    multiset(FileBags(checks))
  }

  /** The comparison is an equivalence. */
  lemma ChecksEquivalence(a: seq<Check>, b: seq<Check>, c: seq<Check>)
    ensures ChecksEqual(a, a)
    ensures ChecksEqual(a, b) ==> ChecksEqual(b, a)
    ensures ChecksEqual(a, b) && ChecksEqual(b, c) ==> ChecksEqual(a, c)
  {
  }

  /** It compares the joined texts as multisets, for any checks. */
  lemma ChecksCompareJoined(a: seq<Check>, b: seq<Check>)
    ensures ChecksEqual(a, b) <==> multiset(AllJoined(a)) == multiset(AllJoined(b))
  {
    hide Sort, AllJoined;
    SortsAlike(AllJoined(a), AllJoined(b));
  }

  /** It does not depend on the order of checks or of files: equal multisets of multisets always compare equal. */
  lemma OrderDoesNotMatter(a: seq<Check>, b: seq<Check>)
    requires Bag(a) == Bag(b)
    ensures ChecksEqual(a, b)
  {
    hide Sort, Joined, ChecksEqual, FileBags, AllJoined;
    var fa, fb, ja, jb := FileBags(a), FileBags(b), AllJoined(a), AllJoined(b);
    forall i, j | 0 <= i < |fa| && 0 <= j < |fb| && fa[i] == fb[j]
      ensures ja[i] == jb[j]
    {
      SameFilesJoinAlike(a[i], b[j]);
    }
    BagsTransport(fa, ja, fb, jb);
    ChecksCompareJoined(a, b);
  }

  lemma SameFilesJoinAlike(x: Check, y: Check)
    requires multiset(x) == multiset(y)
    ensures Joined(x) == Joined(y)
  {
    hide Sort;
    SortsAlike(x, y);
  }

  /** No file name has a '|', and no check is one empty name; non-empty names meet the second condition. */
  predicate Separable(checks: seq<Check>) {
    forall c :: c in checks ==> SeparableCheck(c)
  }

  predicate SeparableCheck(c: Check) {
    c != [""] && forall f :: f in c ==> '|' !in f
  }

  lemma JoinedIsEmpty(s: seq<string>)
    requires s != [""]
    ensures Join(s, '|') == "" <==> s == []
  {
    if |s| > 1 {
      assert |Join(s, '|')| >= 1;
    }
  }

  lemma SortedShape(c: Check)
    ensures Sort(c) == [] <==> c == []
    ensures Sort(c) == [""] <==> c == [""]
  {
    hide Insert;
    if |c| == 1 {
      assert c[..0] == [];
      assert Sort([]) == [];
      InsertHere(c[0], []);
      assert c == [c[0]];
    }
  }

  /** Under these conditions the joined text determines the files. */
  lemma JoinedDetermines(x: Check, y: Check)
    requires SeparableCheck(x) && SeparableCheck(y) && Joined(x) == Joined(y)
    ensures multiset(x) == multiset(y)
  {
    hide Sort, Split;
    SortedShape(x);
    SortedShape(y);
    JoinedIsEmpty(Sort(x));
    JoinedIsEmpty(Sort(y));
    SortKeeps(x);
    SortKeeps(y);
    if x != [] {
      hide Join;
      FilesHaveNoBar(x);
      FilesHaveNoBar(y);
      SplitUndoesJoin(Sort(x), '|');
      SplitUndoesJoin(Sort(y), '|');
    }
  }

  lemma FilesHaveNoBar(c: Check)
    requires SeparableCheck(c)
    ensures forall f :: f in Sort(c) ==> '|' !in f
  {
    hide Sort;
    SortKeeps(c);
    forall f | f in Sort(c)
      ensures '|' !in f
    {
      assert f in multiset(Sort(c));
    }
  }

  /** On separable checks the comparison is exactly equality as multisets of multisets. */
  lemma ChecksEqualExactly(a: seq<Check>, b: seq<Check>)
    requires Separable(a) && Separable(b)
    ensures ChecksEqual(a, b) <==> Bag(a) == Bag(b)
  {
    hide Sort, Joined, ChecksEqual, FileBags, AllJoined, SeparableCheck;
    if Bag(a) == Bag(b) {
      OrderDoesNotMatter(a, b);
    }
    if ChecksEqual(a, b) {
      ChecksCompareJoined(a, b);
      var fa, fb, ja, jb := FileBags(a), FileBags(b), AllJoined(a), AllJoined(b);
      forall i, j | 0 <= i < |ja| && 0 <= j < |jb| && ja[i] == jb[j]
        ensures fa[i] == fb[j]
      {
        assert a[i] in a && b[j] in b;
        JoinedDetermines(a[i], b[j]);
      }
      BagsTransport(ja, fa, jb, fb);
    }
  }

  /** A name with a bar is taken for two names, and one empty name for none. */
  lemma BarsAndBlanksCollide(f: string, g: string)
    requires Leq(f, g)
    ensures ChecksEqual([[f + "|" + g]], [[f, g]]) && Bag([[f + "|" + g]]) != Bag([[f, g]])
    ensures ChecksEqual([[""]], [[]]) && Bag([[""]]) != Bag([[]])
  {
    BarCollides(f, g);
    BlankCollides();
    OneCheckBag([f + "|" + g], [f, g]);
    OneCheckBag([""], []);
  }

  // ---- which checks are never confused with others ----

  /** The name reads as two names in order, with a bar between them. */
  predicate SplitsAt(t: string, i: nat) {
    i < |t| && t[i] == '|' && Leq(t[..i], t[i + 1..])
  }

  /** A name that no other check can be joined to. */
  ghost predicate SafeName(t: string) {
    t != "" && !exists i: nat :: SplitsAt(t, i)
  }

  /** A check of one name, and that a safe one. */
  ghost predicate SafeCheck(c: Check) {
    |c| == 1 && SafeName(c[0])
  }

  lemma {:induction false} LeqPrefix(a: string, b: string)
    ensures Leq(a, a + b)
  {
    if a != "" {
      assert (a + b)[1..] == a[1..] + b;
      LeqPrefix(a[1..], b);
    }
  }

  /** Joining two or more ordered names gives a name that splits after the first. */
  lemma JoinedSplits(s: seq<string>)
    requires |s| >= 2 && Ordered(s)
    ensures SplitsAt(Join(s, '|'), |s[0]|)
  {
    hide Leq, Ordered, AllLeq;
    var t, rest := Join(s, '|'), Join(s[1..], '|');
    assert t == s[0] + ['|'] + rest;
    assert t[..|s[0]|] == s[0] && t[|s[0]| + 1..] == rest;
    FirstIsLeast(s);
    var more := if |s| == 2 then "" else ['|'] + Join(s[2..], '|');
    assert s[1..][1..] == s[2..];
    assert rest == s[1] + more;
    LeqPrefix(s[1], more);
    LeqTransitive(s[0], s[1], rest);
  }

  lemma {:induction false} FirstIsLeast(s: seq<string>)
    requires |s| >= 2 && Ordered(s)
    ensures Leq(s[0], s[1])
  {
    hide Leq;
    if |s| > 2 {
      FirstIsLeast(s[..|s| - 1]);
    } else {
      assert s[0] in s;
    }
  }

  lemma OneNameJoined(t: string)
    ensures Joined([t]) == t
  {
    hide Sort;
    OneFileSorted(t);
  }

  /** A check of one safe name is joined like no other. */
  lemma SafeIsAlone(c: Check, d: Check)
    requires SafeCheck(c) && Joined(d) == Joined(c)
    ensures multiset(d) == multiset(c)
  {
    hide Sort, Leq, Ordered;
    assert c == [c[0]];
    OneNameJoined(c[0]);
    SortKeeps(d);
    var s := Sort(d);
    if |s| >= 2 {
      JoinedSplits(s);
    }
    assert |s| == 1;
    assert s == [s[0]];
  }

  /** Any other check shares its joined text with a check of other files. */
  lemma UnsafeHasDouble(c: Check) returns (d: Check)
    requires !SafeCheck(c)
    ensures Joined(d) == Joined(c) && multiset(d) != multiset(c)
  {
    hide Sort, Leq, Joined;
    if |c| != 1 {
      d := [Joined(c)];
      OneNameJoined(Joined(c));
    } else if c[0] == "" {
      d := [];
      assert c == [""];
      NoFilesJoined();
      OneNameJoined("");
    } else {
      var i: nat :| SplitsAt(c[0], i);
      d := [c[0][..i], c[0][i + 1..]];
      assert c == [c[0]];
      OneNameJoined(c[0]);
      TwoNamesJoined(c[0], i);
    }
    assert |multiset(c)| == |c| && |multiset(d)| == |d|;
  }

  lemma NoFilesJoined()
    ensures Joined([]) == ""
  {
  }

  lemma TwoNamesJoined(t: string, i: nat)
    requires SplitsAt(t, i)
    ensures Joined([t[..i], t[i + 1..]]) == t
  {
    hide Sort, Leq;
    TwoFilesSorted(t[..i], t[i + 1..]);
    assert Join([t[..i], t[i + 1..]], '|') == t[..i] + ['|'] + t[i + 1..];
  }

  /**
   A check of one name is confused with another one exactly when the name is empty or some bar splits it into two parts
   in order.
   */
  lemma OneNameConfused(t: string)
    ensures (exists d: Check :: Joined(d) == Joined([t]) && multiset(d) != multiset([t])) <==>
            t == "" || exists i: nat :: SplitsAt(t, i)
  {
    hide Joined, SplitsAt;
    if SafeCheck([t]) {
      forall d: Check | Joined(d) == Joined([t])
        ensures multiset(d) == multiset([t])
      {
        SafeIsAlone([t], d);
      }
    } else {
      var d := UnsafeHasDouble([t]);
    }
  }

  lemma WithDouble(a: seq<Check>, i: nat, d: Check)
    requires i < |a| && Joined(d) == Joined(a[i]) && multiset(d) != multiset(a[i])
    ensures ChecksEqual(a, a[i := d]) && Bag(a) != Bag(a[i := d])
  {
    hide Sort, Joined, AllJoined, FileBags;
    var b := a[i := d];
    assert AllJoined(b) == AllJoined(a);
    var fa, fb := FileBags(a), FileBags(b);
    assert fb == fa[i := multiset(d)];
    assert multiset(fb)[multiset(a[i])] == multiset(fa)[multiset(a[i])] - 1;
  }

  /** A check of no names, or of several, compares equal to the check of one name that is its joined text. */
  lemma JoinedTextConfused(c: Check)
    requires |c| != 1
    ensures ChecksEqual([c], [[Joined(c)]]) && Bag([c]) != Bag([[Joined(c)]])
  {
    hide Sort, Leq, Joined, ChecksEqual, Bag;
    OneNameJoined(Joined(c));
    assert |multiset(c)| == |c| && |multiset([Joined(c)])| == 1;
    WithDouble([c], 0, [Joined(c)]);
    assert [c][0 := [Joined(c)]] == [[Joined(c)]];
  }

  /**
   For all lists of checks: one is told apart from every different list exactly when each of its checks is of one name,
   which is not empty and which no bar splits into ordered parts.
   */
  lemma ToldApartExactly(a: seq<Check>)
    ensures (forall b: seq<Check> :: ChecksEqual(a, b) ==> Bag(a) == Bag(b)) <==> forall c :: c in a ==> SafeCheck(c)
  {
    hide SafeCheck, Joined, ChecksEqual, Bag;
    if forall c :: c in a ==> SafeCheck(c) {
      forall b: seq<Check> | ChecksEqual(a, b)
        ensures Bag(a) == Bag(b)
      {
        SafeListsAreAlone(a, b);
      }
    } else {
      var c :| c in a && !SafeCheck(c);
      var i :| 0 <= i < |a| && a[i] == c;
      var d := UnsafeHasDouble(c);
      WithDouble(a, i, d);
    }
  }

  lemma SafeListsAreAlone(a: seq<Check>, b: seq<Check>)
    requires ChecksEqual(a, b) && forall c :: c in a ==> SafeCheck(c)
    ensures Bag(a) == Bag(b)
  {
    hide SafeCheck, Joined, ChecksEqual, FileBags, AllJoined;
    ChecksCompareJoined(a, b);
    var fa, fb, ja, jb := FileBags(a), FileBags(b), AllJoined(a), AllJoined(b);
    forall i, j | 0 <= i < |ja| && 0 <= j < |jb| && ja[i] == jb[j]
      ensures fa[i] == fb[j]
    {
      assert a[i] in a;
      SafeIsAlone(a[i], b[j]);
    }
    BagsTransport(ja, fa, jb, fb);
  }

  lemma BarCollides(f: string, g: string)
    requires Leq(f, g)
    ensures ChecksEqual([[f + "|" + g]], [[f, g]])
  {
    hide Sort, Leq, AllJoined;
    OneFileSorted(f + "|" + g);
    TwoFilesSorted(f, g);
    OneCheck([f + "|" + g]);
    OneCheck([f, g]);
    assert Join([f, g], '|') == f + "|" + g;
  }

  lemma BlankCollides()
    ensures ChecksEqual([[""]], [[]])
  {
    OneFileSorted("");
    OneCheck([""]);
    OneCheck([]);
    assert Joined([]) == "";
    hide Sort, AllJoined;
  }

  lemma OneCheckBag(x: Check, y: Check)
    requires |x| != |y|
    ensures Bag([x]) != Bag([y])
  {
    hide Joined, FileBags;
    OneCheck(x);
    OneCheck(y);
    assert |multiset(x)| == |x| && |multiset(y)| == |y|;
    assert Bag([x])[multiset(x)] == 1 && Bag([y])[multiset(x)] == 0;
  }

  lemma OneCheck(c: Check)
    ensures AllJoined([c]) == [Joined(c)] && FileBags([c]) == [multiset(c)]
  {
    hide Joined;
    assert [c][..0] == [];
  }

  lemma OneFileSorted(f: string)
    ensures Sort([f]) == [f]
  {
    assert [f][..0] == [];
    assert Sort([]) == [];
  }

  lemma TwoFilesSorted(f: string, g: string)
    requires Leq(f, g)
    ensures Sort([f, g]) == [f, g]
  {
    hide Leq;
    OneFileSorted(f);
    assert [f, g][..1] == [f];
  }
}
