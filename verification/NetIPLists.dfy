/** compareNetIPLists of go/internal/engine.go: a list of prefixes against a list of texts, regardless of order. */
module NetIPLists {
  import opened Wrappers
  import opened Net
  import opened Bags

  /** The prefixes that a list of texts names, when all are readable. */
  function ParsedAll(v6: V6Codec, texts: seq<string>): (r: Option<seq<Prefix>>)
    ensures r.Some? ==> |r.value| == |texts|
  {
    if texts == [] then Some([])
    else match ParsedAll(v6, texts[..|texts| - 1])
      case None => None
      case Some(front) =>
        match ParsePrefix(v6, texts[|texts| - 1])
        case None => None
        case Some(p) => Some(front + [p])
  }

  lemma {:induction false} ParsedAt(v6: V6Codec, texts: seq<string>, i: nat)
    requires i < |texts|
    ensures ParsePrefix(v6, texts[i]).None? ==> ParsedAll(v6, texts).None?
    ensures ParsedAll(v6, texts).Some? ==> ParsePrefix(v6, texts[i]) == Some(ParsedAll(v6, texts).value[i])
  {
    hide ParsePrefix;
    if i < |texts| - 1 {
      ParsedAt(v6, texts[..|texts| - 1], i);
    }
  }

  lemma ParsedNothing(v6: V6Codec)
    ensures ParsedAll(v6, []) == Some([]) && Texts(v6, []) == []
  {
  }

  lemma ParsedOneMore(v6: V6Codec, texts: seq<string>, i: nat)
    requires i < |texts| && ParsedAll(v6, texts[..i]).Some? && ParsePrefix(v6, texts[i]).Some?
    ensures ParsedAll(v6, texts[..i + 1]) == Some(ParsedAll(v6, texts[..i]).value + [ParsePrefix(v6, texts[i]).value])
  {
    hide ParsePrefix;
    assert texts[..i + 1][..i] == texts[..i];
  }

  function Texts(v6: V6Codec, ps: seq<Prefix>): (r: seq<string>)
    ensures |r| == |ps| && forall i :: 0 <= i < |ps| ==> r[i] == PrefixText(v6, ps[i])
  {
    seq(|ps|, i requires 0 <= i < |ps| => PrefixText(v6, ps[i]))
  }

  lemma TextsOneMore(v6: V6Codec, ps: seq<Prefix>, p: Prefix)
    ensures Texts(v6, ps + [p]) == Texts(v6, ps) + [PrefixText(v6, p)]
  {
    hide PrefixText;
  }

  /** Counting texts is counting prefixes. */
  lemma SameTextsSamePrefixes(v6: V6Codec, a: seq<Prefix>, b: seq<Prefix>)
    requires v6.Lawful()
    ensures multiset(Texts(v6, a)) == multiset(Texts(v6, b)) <==> multiset(a) == multiset(b)
  {
    hide PrefixText, Texts;
    forall i, j | 0 <= i < |a| && 0 <= j < |b| && Texts(v6, a)[i] == Texts(v6, b)[j]
      ensures a[i] == b[j]
    {
      PrefixTextInjective(v6, a[i], b[j]);
    }
    if multiset(Texts(v6, a)) == multiset(Texts(v6, b)) {
      BagsTransport(Texts(v6, a), a, Texts(v6, b), b);
    }
    if multiset(a) == multiset(b) {
      BagsTransport(a, Texts(v6, a), b, Texts(v6, b));
    }
  }

  function Count(freq: map<string, nat>, key: string): nat {
    if key in freq then freq[key] else 0
  }

  /** The frequency map of a bag of texts. */
  ghost predicate Tallies(freq: map<string, nat>, bag: multiset<string>) {
    forall s :: bag[s] == Count(freq, s)
  }

  method CountNetworks(v6: V6Codec, list1: seq<Prefix>) returns (freq: map<string, nat>)
    ensures Tallies(freq, multiset(Texts(v6, list1)))
  {
    hide PrefixText, Texts;
    freq := map[];
    assert Texts(v6, list1[..0]) == [];
    for i := 0 to |list1|
      invariant Tallies(freq, multiset(Texts(v6, list1[..i])))
    {
      var key := PrefixText(v6, list1[i]);
      TextsOneMore(v6, list1[..i], list1[i]);
      assert list1[..i + 1] == list1[..i] + [list1[i]];
      freq := freq[key := Count(freq, key) + 1];
    }
    assert list1[..|list1|] == list1;
  }

  lemma TakeOne(left: map<string, nat>, bag: multiset<string>, taken: seq<string>, key: string)
    requires multiset(taken) <= bag && Tallies(left, bag - multiset(taken)) && Count(left, key) != 0
    ensures multiset(taken + [key]) <= bag && key in left
    ensures Tallies(left[key := left[key] - 1], bag - multiset(taken + [key]))
  {
    var rest, after := bag - multiset(taken), left[key := left[key] - 1];
    assert rest[key] == left[key];
    assert bag - multiset(taken + [key]) == rest - multiset{key};
    forall s
      ensures (rest - multiset{key})[s] == Count(after, s)
    {
      assert rest[s] == Count(left, s);
    }
  }

  lemma NoneToTake(left: map<string, nat>, bag: multiset<string>, taken: seq<string>, key: string)
    requires multiset(taken) <= bag && Tallies(left, bag - multiset(taken)) && Count(left, key) == 0
    ensures !(multiset(taken + [key]) <= bag)
  {
    assert (bag - multiset(taken))[key] == 0;
    assert multiset(taken + [key])[key] == multiset(taken)[key] + 1;
  }

  /** Takes each network of a list out of the counts; fails on an unreadable or an uncounted one. */
  method TakeNetworks(v6: V6Codec, freq: map<string, nat>, ghost bag: multiset<string>, list2: seq<string>)
    returns (ok: bool, left: map<string, nat>)
    requires Tallies(freq, bag)
    ensures ok <==> ParsedAll(v6, list2).Some? && multiset(Texts(v6, ParsedAll(v6, list2).value)) <= bag
    ensures ok ==> Tallies(left, bag - multiset(Texts(v6, ParsedAll(v6, list2).value)))
  {
    hide PrefixText, Texts, ParsePrefix, Tallies, ParsedAll;
    left := freq;
    assert ParsedAll(v6, []) == Some([]) by { ParsedNothing(v6); }
    assert Texts(v6, []) == [] by { ParsedNothing(v6); }
    assert list2[..0] == [];
    assert bag - multiset([]) == bag;
    for i := 0 to |list2|
      invariant ParsedAll(v6, list2[..i]).Some?
      invariant multiset(Texts(v6, ParsedAll(v6, list2[..i]).value)) <= bag
      invariant Tallies(left, bag - multiset(Texts(v6, ParsedAll(v6, list2[..i]).value)))
    {
      var p := ParsePrefix(v6, list2[i]);
      ParsedAt(v6, list2, i);
      if p.None? {
        return false, left;
      }
      ghost var front := ParsedAll(v6, list2[..i]).value;
      ParsedOneMore(v6, list2, i);
      TextsOneMore(v6, front, p.value);
      var key := PrefixText(v6, p.value);
      if Count(left, key) == 0 {
        NoneToTake(left, bag, Texts(v6, front), key);
        TooMany(v6, list2, i, bag);
        return false, left;
      }
      TakeOne(left, bag, Texts(v6, front), key);
      left := left[key := left[key] - 1];
    }
    assert list2[..|list2|] == list2;
    ok := true;
  }

  /** A network that is not left in the counts is missing from the bag, whatever the later ones are. */
  lemma TooMany(v6: V6Codec, list2: seq<string>, i: nat, bag: multiset<string>)
    requires i < |list2| && ParsedAll(v6, list2[..i + 1]).Some?
    requires !(multiset(Texts(v6, ParsedAll(v6, list2[..i + 1]).value)) <= bag)
    ensures ParsedAll(v6, list2).Some? ==> !(multiset(Texts(v6, ParsedAll(v6, list2).value)) <= bag)
  {
    hide ParsePrefix, PrefixText;
    if ParsedAll(v6, list2).Some? {
      var all, front := ParsedAll(v6, list2).value, ParsedAll(v6, list2[..i + 1]).value;
      forall j | 0 <= j <= i
        ensures all[j] == front[j]
      {
        ParsedAt(v6, list2, j);
        ParsedAt(v6, list2[..i + 1], j);
      }
      var ts := Texts(v6, all);
      assert ts == ts[..i + 1] + ts[i + 1..];
      assert ts[..i + 1] == Texts(v6, front);
    }
  }

  /** With lists of the same length nothing is left over once every network was taken out. */
  lemma FinalPassIsIdle(v6: V6Codec, list1: seq<Prefix>, list2: seq<Prefix>, left: map<string, nat>)
    requires v6.Lawful() && |list1| == |list2| && multiset(Texts(v6, list2)) <= multiset(Texts(v6, list1))
    requires Tallies(left, multiset(Texts(v6, list1)) - multiset(Texts(v6, list2)))
    ensures multiset(list1) == multiset(list2)
    ensures forall key :: key in left ==> left[key] == 0
  {
    hide Texts;
    NothingLeftOver(Texts(v6, list1), Texts(v6, list2));
    SameTextsSamePrefixes(v6, list1, list2);
    forall key | key in left
      ensures left[key] == 0
    {
      assert Count(left, key) == (multiset(Texts(v6, list1)) - multiset(Texts(v6, list2)))[key];
    }
  }

  /** True exactly when every text is readable and the two lists hold the same prefixes equally often. */
  method CompareNetIPLists(v6: V6Codec, list1: seq<Prefix>, list2: seq<string>) returns (equal: bool)
    requires v6.Lawful()
    ensures equal <==> SameNetworks(v6, list1, list2)
  {
    hide Texts, ParsedAll;
    if |list1| != |list2| {
      DifferentLengths(v6, list1, list2);
      return false;
    }
    var freq := CountNetworks(v6, list1);
    var ok, left := TakeNetworks(v6, freq, multiset(Texts(v6, list1)), list2);
    if !ok {
      if ParsedAll(v6, list2).Some? {
        SameTextsSamePrefixes(v6, list1, ParsedAll(v6, list2).value);
      }
      return false;
    }
    FinalPassIsIdle(v6, list1, ParsedAll(v6, list2).value, left);
    equal := true;
    var keys := left.Keys;
    while keys != {}
      invariant keys <= left.Keys && equal
      decreases |keys|
    {
      var key :| key in keys;
      if left[key] != 0 {
        equal := false;
      }
      keys := keys - {key};
    }
  }

  predicate SameNetworks(v6: V6Codec, list1: seq<Prefix>, list2: seq<string>) {
    match ParsedAll(v6, list2)
    case None => false
    case Some(ps) => multiset(list1) == multiset(ps)
  }

  lemma DifferentLengths(v6: V6Codec, list1: seq<Prefix>, list2: seq<string>)
    requires |list1| != |list2|
    ensures !SameNetworks(v6, list1, list2)
  {
    hide ParsedAll;
    assert |multiset(list1)| == |list1|;
    if ParsedAll(v6, list2).Some? {
      var ps := ParsedAll(v6, list2).value;
      assert |multiset(ps)| == |ps|;
    }
  }
}
