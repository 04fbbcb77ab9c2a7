// include/utils/hyperion.h, createLedString and createLedStringClone, and the second half of
// Hyperion::update: LEDs that show the colour of another LED are inserted into the strip.

module StripSpec {
  import opened Wrappers
  import opened Colors
  import opened Leds
  import opened Arithmetic

  // One entry of the "leds" configuration.
  datatype LedConfig = LedConfig(index: nat, clone: int, hMin: real, hMax: real, vMin: real, vMax: real,
                                 colorOrder: ColorOrder)

  function Clamp(x: real): real {
    if x < 0.0 then 0.0 else if x > 1.0 then 1.0 else x
  }

  // The clone index of an entry; one that is out of range is ignored.
  function CloneOf(c: LedConfig, count: int): int {
    if c.clone < -1 || c.clone >= count then -1 else c.clone
  }

  function MinReal(a: real, b: real): real {
    if a < b then a else b
  }

  function MaxReal(a: real, b: real): real {
    if a < b then b else a
  }

  function OriginalLed(c: LedConfig): Led {
    Led(c.index, MinReal(Clamp(c.hMin), Clamp(c.hMax)), MaxReal(Clamp(c.hMin), Clamp(c.hMax)),
        MinReal(Clamp(c.vMin), Clamp(c.vMax)), MaxReal(Clamp(c.vMin), Clamp(c.vMax)), -1, c.colorOrder)
  }

  function CloneLed(c: LedConfig): Led {
    Led(c.index, 0.0, 0.0, 0.0, 0.0, c.clone, c.colorOrder)
  }

  // The entries of one kind, in configuration order.
  function Select(configs: seq<LedConfig>, count: int, clones: bool): seq<Led> {
    if configs == [] then []
    else
      var n := |configs| - 1;
      var rest := Select(configs[..n], count, clones);
      if (CloneOf(configs[n], count) >= 0) != clones then rest
      else rest + [if clones then CloneLed(configs[n]) else OriginalLed(configs[n])]
  }

  // std::sort by index.
  function Insert(led: Led, sorted: seq<Led>): seq<Led> {
    if sorted == [] || led.index <= sorted[0].index then [led] + sorted
    else [sorted[0]] + Insert(led, sorted[1..])
  }

  function SortByIndex(leds: seq<Led>): seq<Led> {
    if leds == [] then [] else Insert(leds[|leds| - 1], SortByIndex(leds[..|leds| - 1]))
  }

  predicate Sorted(leds: seq<Led>) {
    forall i, j :: 0 <= i < j < |leds| ==> leds[i].index <= leds[j].index
  }

  lemma {:induction false} InsertSorted(led: Led, sorted: seq<Led>)
    requires Sorted(sorted)
    ensures Sorted(Insert(led, sorted)) && multiset(Insert(led, sorted)) == multiset(sorted) + multiset{led}
  {
    if sorted == [] || led.index <= sorted[0].index {
      assert [led] + sorted == Insert(led, sorted);
    } else {
      var rest := sorted[1..];
      InsertSorted(led, rest);
      assert sorted == [sorted[0]] + rest;
      forall x | x in Insert(led, rest)
        ensures sorted[0].index <= x.index
      {
        assert x in multiset(Insert(led, rest));
        if x != led { assert x in rest; }
      }
    }
  }

  lemma {:induction false} SortIsSorted(leds: seq<Led>)
    ensures Sorted(SortByIndex(leds)) && multiset(SortByIndex(leds)) == multiset(leds)
  {
    if leds != [] {
      var n := |leds| - 1;
      SortIsSorted(leds[..n]);
      InsertSorted(leds[n], SortByIndex(leds[..n]));
      assert leds == leds[..n] + [leds[n]];
    }
  }

  function Originals(configs: seq<LedConfig>): seq<Led> {
    SortByIndex(Select(configs, |configs|, false))
  }

  function Clones(configs: seq<LedConfig>): seq<Led> {
    SortByIndex(Select(configs, |configs|, true))
  }

  // The indices of the configuration are a permutation of 0, 1, 2, ...
  predicate IndexPermutation(configs: seq<LedConfig>) {
    && (forall i :: 0 <= i < |configs| ==> configs[i].index < |configs|)
    && forall i, j :: 0 <= i < j < |configs| ==> configs[i].index != configs[j].index
  }

  // ---------------------------------------------------------------- a strip with gaps for clones

  // Originals and clones, each in strictly increasing order, together cover 0 .. total - 1 once.
  ghost predicate Strip(originals: seq<Led>, clones: seq<Led>, total: nat) {
    && Strict(Indices(originals)) && Strict(Indices(clones))
    && (forall i :: 0 <= i < total ==> (i in Indices(originals)) != (i in Indices(clones)))
    && (forall i :: i in Indices(originals) || i in Indices(clones) ==> 0 <= i < total)
  }

  function Indices(leds: seq<Led>): (r: seq<int>)
    ensures |r| == |leds| && forall i :: 0 <= i < |r| ==> r[i] == leds[i].index
  {
    seq(|leds|, i requires 0 <= i < |leds| => leds[i].index)
  }

  predicate Strict(s: seq<int>) {
    forall i, j :: 0 <= i < j < |s| ==> s[i] < s[j]
  }

  function LedOf(c: LedConfig, clones: bool): Led {
    if clones then CloneLed(c) else OriginalLed(c)
  }

  predicate Distinct(leds: seq<Led>) {
    forall i, j :: 0 <= i < j < |leds| ==> leds[i].index != leds[j].index
  }

  predicate OfKind(c: LedConfig, count: int, clones: bool) {
    (CloneOf(c, count) >= 0) == clones
  }

  // Selecting keeps exactly the entries of the kind, once each.
  lemma {:induction false} SelectMembers(configs: seq<LedConfig>, count: int, clones: bool)
    ensures forall i :: 0 <= i < |configs| && OfKind(configs[i], count, clones) ==>
              LedOf(configs[i], clones) in Select(configs, count, clones)
    ensures forall led :: led in Select(configs, count, clones) ==>
              exists i :: 0 <= i < |configs| && OfKind(configs[i], count, clones) && led == LedOf(configs[i], clones)
  {
    hide CloneLed, OriginalLed, CloneOf;
    if configs != [] {
      var n := |configs| - 1;
      SelectMembers(configs[..n], count, clones);
      forall led | led in Select(configs[..n], count, clones)
        ensures exists i :: 0 <= i < |configs| && OfKind(configs[i], count, clones) && led == LedOf(configs[i], clones)
      {
        var i :| 0 <= i < n && OfKind(configs[..n][i], count, clones) && led == LedOf(configs[..n][i], clones);
        assert configs[i] == configs[..n][i];
      }
      forall i | 0 <= i < n && OfKind(configs[i], count, clones)
        ensures LedOf(configs[i], clones) in Select(configs[..n], count, clones)
      {
        assert configs[..n][i] == configs[i];
      }
    }
  }

  lemma {:induction false} SelectDistinct(configs: seq<LedConfig>, count: int, clones: bool)
    requires forall i, j :: 0 <= i < j < |configs| ==> configs[i].index != configs[j].index
    ensures Distinct(Select(configs, count, clones))
  {
    if configs != [] {
      var n := |configs| - 1;
      SelectDistinct(configs[..n], count, clones);
      SelectMembers(configs[..n], count, clones);
      var before := Select(configs[..n], count, clones);
      forall i | 0 <= i < |before|
        ensures before[i].index != configs[n].index
      {
        assert before[i] in before;
      }
    }
  }

  lemma {:induction false} CountedOnce(leds: seq<Led>, x: Led)
    requires Distinct(leds)
    ensures multiset(leds)[x] <= 1
  {
    if leds != [] {
      var n := |leds| - 1;
      assert leds == leds[..n] + [leds[n]];
      CountedOnce(leds[..n], x);
      if x == leds[n] { assert x !in leds[..n]; }
    }
  }

  lemma CountedTwice(leds: seq<Led>, i: nat, j: nat)
    requires i < j < |leds| && leds[i] == leds[j]
    ensures multiset(leds)[leds[i]] >= 2
  {
    assert leds == leds[..j] + leds[j..];
    assert leds[i] in leds[..j] && leds[i] in leds[j..];
  }

  // Sorting distinct indices makes them strictly increasing.
  lemma SortStrict(leds: seq<Led>)
    requires Distinct(leds)
    ensures Strict(Indices(SortByIndex(leds)))
    ensures forall x :: x in SortByIndex(leds) <==> x in leds
  {
    hide SortByIndex;
    var r := SortByIndex(leds);
    SortIsSorted(leds);
    forall x
      ensures x in r <==> x in leds
    {
      assert x in r <==> x in multiset(r);
    }
    forall i, j | 0 <= i < j < |r|
      ensures r[i].index < r[j].index
    {
      if r[i].index == r[j].index {
        assert r[i] in leds && r[j] in leds;
        CountedTwice(r, i, j);
        CountedOnce(leds, r[i]);
      }
    }
  }

  function Elements(s: seq<int>): set<int> {
    set x | x in s
  }

  lemma {:induction false} DistinctCount(s: seq<int>)
    requires forall i, j :: 0 <= i < j < |s| ==> s[i] != s[j]
    ensures |Elements(s)| == |s|
  {
    if s != [] {
      var n := |s| - 1;
      DistinctCount(s[..n]);
      assert Elements(s) == Elements(s[..n]) + {s[n]};
    }
  }

  lemma SubsetOfSameSize(a: set<int>, b: set<int>)
    requires a <= b && |a| == |b|
    ensures a == b
  {
    assert b == a + (b - a);
    assert |b - a| == 0;
  }

  function Below(n: nat): (r: set<int>)
    ensures |r| == n && forall x :: x in r <==> 0 <= x < n
  {
    if n == 0 then {} else Below(n - 1) + {n - 1}
  }

  // A finite injection into 0 .. n - 1 is onto.
  lemma PermutationOnto(s: seq<int>, n: nat)
    requires |s| == n && (forall i :: 0 <= i < n ==> 0 <= s[i] < n)
    requires forall i, j :: 0 <= i < j < n ==> s[i] != s[j]
    ensures forall v :: 0 <= v < n ==> v in s
  {
    DistinctCount(s);
    SubsetOfSameSize(Elements(s), Below(n));
    forall v | 0 <= v < n
      ensures v in s
    {
      assert v in Below(n) && v in Elements(s);
    }
  }

  // Main result: sorting out originals and clones of a permutation of indices gives a strip.
  lemma ConfigMakesStrip(configs: seq<LedConfig>)
    requires IndexPermutation(configs)
    ensures Strip(Originals(configs), Clones(configs), |configs|)
  {
    hide Select, SortByIndex, OriginalLed, CloneLed, CloneOf, Strict;
    var n := |configs|;
    var os, cs := Originals(configs), Clones(configs);
    KindMembers(configs, false);
    KindMembers(configs, true);
    var s := seq(n, i requires 0 <= i < n => configs[i].index);
    PermutationOnto(s, n);
    forall v | 0 <= v < n
      ensures (v in Indices(os)) != (v in Indices(cs))
    {
      assert v in s;
      var i :| 0 <= i < n && s[i] == v;
      assert configs[i].index == v;
    }
  }

  // Which indices occur among the LEDs of one kind.
  lemma KindMembers(configs: seq<LedConfig>, clones: bool)
    requires IndexPermutation(configs)
    ensures var leds := SortByIndex(Select(configs, |configs|, clones));
            && Strict(Indices(leds))
            && (forall i :: 0 <= i < |configs| ==>
                  (configs[i].index in Indices(leds) <==> OfKind(configs[i], |configs|, clones)))
            && (forall v :: v in Indices(leds) ==> 0 <= v < |configs|)
  {
    hide Select, SortByIndex, CloneOf, Strict;
    var n, sel := |configs|, Select(configs, |configs|, clones);
    var leds := SortByIndex(sel);
    SelectMembers(configs, n, clones);
    SelectDistinct(configs, n, clones);
    SortStrict(sel);
    forall i | 0 <= i < n
      ensures configs[i].index in Indices(leds) <==> OfKind(configs[i], n, clones)
    {
      if OfKind(configs[i], n, clones) {
        assert LedOf(configs[i], clones) in leds;
        var k :| 0 <= k < |leds| && leds[k] == LedOf(configs[i], clones);
        assert Indices(leds)[k] == configs[i].index;
      }
      if configs[i].index in Indices(leds) {
        var k :| 0 <= k < |leds| && Indices(leds)[k] == configs[i].index;
        assert leds[k] in sel;
        var j :| 0 <= j < n && OfKind(configs[j], n, clones) && leds[k] == LedOf(configs[j], clones);
        assert i == j;
      }
    }
    forall v | v in Indices(leds)
      ensures 0 <= v < n
    {
      var k :| 0 <= k < |leds| && Indices(leds)[k] == v;
      assert leds[k] in sel;
    }
  }

  // Where a fraction between 0 and 1 lies between two configured bounds, in either order.
  predicate Between(f: real, a: real, b: real) {
    a <= f <= b || b <= f <= a
  }

  lemma CoversConfigured(c: LedConfig, f: real)
    requires 0.0 < f < 1.0
    ensures var led := OriginalLed(c);
            && Normalised(led)
            && (led.minX <= f <= led.maxX <==> Between(f, c.hMin, c.hMax))
            && (led.minY <= f <= led.maxY <==> Between(f, c.vMin, c.vMax))
  {
  }

  lemma SortKeepsMember(leds: seq<Led>, led: Led)
    requires led in leds
    ensures led in SortByIndex(leds)
  {
    hide SortByIndex;
    SortIsSorted(leds);
    assert led in multiset(SortByIndex(leds));
  }

  // Main result: every entry of the configuration becomes one LED of its index and byte order. An
  // entry with the index of an entry to copy becomes a clone of it; any other one covers the
  // configured part of the image.
  lemma EntryBecomesLed(configs: seq<LedConfig>, i: nat) returns (led: Led)
    requires i < |configs|
    ensures led.index == configs[i].index && led.colorOrder == configs[i].colorOrder
    ensures if 0 <= configs[i].clone < |configs|
            then led in Clones(configs) && led.clone == configs[i].clone
            else led in Originals(configs) && Normalised(led)
    ensures !(0 <= configs[i].clone < |configs|) ==> forall f :: 0.0 < f < 1.0 ==>
              && (led.minX <= f <= led.maxX <==> Between(f, configs[i].hMin, configs[i].hMax))
              && (led.minY <= f <= led.maxY <==> Between(f, configs[i].vMin, configs[i].vMax))
  {
    var c, n := configs[i], |configs|;
    var clones := 0 <= c.clone < n;
    led := LedOf(c, clones);
    SelectMembers(configs, n, clones);
    CoversConfigured(c, 0.5);
    assert OfKind(c, n, clones);
    hide Select, SortByIndex, OriginalLed;
    SortKeepsMember(Select(configs, n, clones), led);
    forall f: real | !clones && 0.0 < f < 1.0
      ensures led.minX <= f <= led.maxX <==> Between(f, c.hMin, c.hMax)
      ensures led.minY <= f <= led.maxY <==> Between(f, c.vMin, c.vMax)
    {
      CoversConfigured(c, f);
    }
  }

  // ---------------------------------------------------------------- inserting one by one

  function InsertAt<T>(s: seq<T>, i: nat, x: T): (r: seq<T>)
    requires i <= |s|
    ensures |r| == |s| + 1 && r[i] == x
    ensures forall p :: 0 <= p < |r| ==> r[p] == if p < i then s[p] else if p == i then x else s[p - 1]
  {
    s[..i] + [x] + s[i..]
  }

  // Which LED each slot belongs to after inserting the clones.
  function Owners(originals: seq<Led>, clones: seq<Led>): seq<int> {
    if clones == [] then Indices(originals)
    else
      var n := |clones| - 1;
      var before := Owners(originals, clones[..n]);
      InsertAt(before, Min(clones[n].index, |before|), clones[n].index)
  }

  lemma {:induction false} StrictAtLeast(s: seq<int>, from: nat, i: nat)
    requires Strict(s) && from <= i < |s| && s[from] >= from
    ensures s[i] - i >= s[from] - from
    decreases i
  {
    if from < i {
      StrictAtLeast(s, from, i - 1);
    }
  }

  // A strictly increasing list of naturals that has all values below m starts with them.
  lemma {:induction false} StrictPrefix(s: seq<int>, m: nat)
    requires Strict(s) && (forall v :: v in s ==> 0 <= v) && (forall v :: 0 <= v < m ==> v in s)
    ensures m <= |s| && forall j :: 0 <= j < m ==> s[j] == j
  {
    if m > 0 {
      StrictPrefix(s, m - 1);
      assert m - 1 in s;
      var p :| 0 <= p < |s| && s[p] == m - 1;
      assert s[0] in s;
      StrictAtLeast(s, 0, p);
    }
  }

  // Every insertion position is right: all smaller indices are already in their slots.
  lemma {:induction false} OwnersSoFar(originals: seq<Led>, clones: seq<Led>, total: nat, k: nat)
    requires Strip(originals, clones, total) && k <= |clones|
    ensures var o := Owners(originals, clones[..k]);
            && Strict(o) && |o| == |originals| + k
            && (forall v :: v in o <==> v in Indices(originals) || v in Indices(clones[..k]))
            && (k < |clones| ==>
                  clones[k].index <= |o| && clones[k].index !in o && forall j :: 0 <= j < clones[k].index ==> o[j] == j)
  {
    var o := Owners(originals, clones[..k]);
    if k > 0 {
      var c := clones[k - 1].index;
      assert clones[..k][..k - 1] == clones[..k - 1];
      OwnersSoFar(originals, clones, total, k - 1);
      var before := Owners(originals, clones[..k - 1]);
      assert o == InsertAt(before, c, c);
      InsertStrictly(before, c);
      OneMoreIndex(clones, k);
    } else {
      assert clones[..0] == [];
    }
    if k < |clones| {
      NextIsMissing(originals, clones, total, k);
      StrictPrefix(o, clones[k].index);
    }
  }

  lemma OneMoreIndex(clones: seq<Led>, k: nat)
    requires 0 < k <= |clones|
    ensures forall v :: v in Indices(clones[..k]) <==> v in Indices(clones[..k - 1]) || v == clones[k - 1].index
  {
    assert Indices(clones[..k]) == Indices(clones[..k - 1]) + [clones[k - 1].index];
  }

  lemma InsertStrictly(s: seq<int>, c: nat)
    requires Strict(s) && c <= |s| && c !in s && (forall v :: v in s ==> 0 <= v) && forall j :: 0 <= j < c ==> s[j] == j
    ensures var r := InsertAt(s, c, c);
            Strict(r) && forall v :: v in r <==> v in s || v == c
  {
    forall j | c <= j < |s|
      ensures s[j] > c
    {
      assert s[j] in s;
      if c > 0 { assert s[c - 1] == c - 1 && s[c - 1] < s[j]; }
    }
    InsertMembers(s, c, c);
  }

  lemma InsertMembers(s: seq<int>, i: nat, c: int)
    requires i <= |s|
    ensures forall v :: v in InsertAt(s, i, c) <==> v in s || v == c
  {
    assert s == s[..i] + s[i..];
  }

  lemma NextIsMissing(originals: seq<Led>, clones: seq<Led>, total: nat, k: nat)
    requires Strip(originals, clones, total) && k < |clones|
    ensures clones[k].index !in Indices(originals) && clones[k].index !in Indices(clones[..k])
    ensures forall v :: 0 <= v < clones[k].index ==> v in Indices(originals) || v in Indices(clones[..k])
  {
    var cs := Indices(clones);
    assert cs[k] == clones[k].index && cs[k] in cs;
    assert Indices(clones[..k]) == cs[..k];
    forall v | 0 <= v < clones[k].index && v in cs
      ensures v in cs[..k]
    {
      var i :| 0 <= i < |cs| && cs[i] == v;
      assert cs[..k][i] == v;
    }
  }

  // The whole strip: slot i belongs to LED i.
  lemma OwnersComplete(originals: seq<Led>, clones: seq<Led>, total: nat)
    requires Strip(originals, clones, total)
    ensures var o := Owners(originals, clones);
            |o| == total == |originals| + |clones| && forall i :: 0 <= i < total ==> o[i] == i
  {
    var o := Owners(originals, clones);
    assert clones[..|clones|] == clones;
    OwnersSoFar(originals, clones, total, |clones|);
    StrictPrefix(o, total);
    StrictBounded(o, total);
  }

  lemma StrictBounded(s: seq<int>, total: nat)
    requires Strict(s) && forall v :: v in s ==> 0 <= v < total
    ensures |s| <= total
  {
    if s != [] {
      assert s[0] in s && s[|s| - 1] in s;
      StrictAtLeast(s, 0, |s| - 1);
    }
  }

  // The slot a clone is copied from is its source's own slot exactly if the source comes first.
  lemma SourceSlotIff(originals: seq<Led>, clones: seq<Led>, total: nat, k: nat)
    requires Strip(originals, clones, total) && k < |clones|
    requires 0 <= clones[k].clone < |Owners(originals, clones[..k])|
    ensures Owners(originals, clones[..k])[clones[k].clone] == clones[k].clone <==> clones[k].clone < clones[k].index
  {
    var o, idx := Owners(originals, clones[..k]), clones[k].index;
    OwnersSoFar(originals, clones, total, k);
    if idx <= clones[k].clone {
      assert o[idx] in o && o[0] in o;
      StrictAtLeast(o, 0, idx);
      StrictAtLeast(o, idx, clones[k].clone);
    }
  }

  // _ledStringColorOrder: the orders of the originals with those of the clones inserted.
  function OrdersOf(originals: seq<Led>, clones: seq<Led>): seq<ColorOrder> {
    if clones == [] then seq(|originals|, i requires 0 <= i < |originals| => originals[i].colorOrder)
    else
      var n := |clones| - 1;
      var before := OrdersOf(originals, clones[..n]);
      InsertAt(before, Min(clones[n].index, |before|), clones[n].colorOrder)
  }

  // The buffer after inserting the clones; `at` throws for a source beyond the end.
  function InsertClones(buf: seq<ColorRgb>, clones: seq<Led>): Option<seq<ColorRgb>> {
    if clones == [] then Some(buf)
    else
      var n := |clones| - 1;
      match InsertClones(buf, clones[..n])
      case None => None
      case Some(b) =>
        if 0 <= clones[n].clone < |b| then Some(InsertAt(b, Min(clones[n].index, |b|), b[clones[n].clone])) else None
  }

  lemma InsertNext(buf: seq<ColorRgb>, clones: seq<Led>, n: nat, b: seq<ColorRgb>)
    requires n < |clones| && InsertClones(buf, clones[..n]) == Some(b)
    ensures var led := clones[n];
            InsertClones(buf, clones[..n + 1]) ==
            if 0 <= led.clone < |b| then Some(InsertAt(b, Min(led.index, |b|), b[led.clone])) else None
  {
    assert clones[..n + 1][..n] == clones[..n];
  }

  lemma InsertNone(buf: seq<ColorRgb>)
    ensures InsertClones(buf, []) == Some(buf)
  {
  }

  lemma {:induction false} InsertedLength(buf: seq<ColorRgb>, clones: seq<Led>)
    ensures InsertClones(buf, clones).Some? ==> |InsertClones(buf, clones).value| == |buf| + |clones|
    ensures InsertClones(buf, clones).Some? <==>
              forall k :: 0 <= k < |clones| ==> 0 <= clones[k].clone < |buf| + k
  {
    if clones != [] {
      var n := |clones| - 1;
      InsertedLength(buf, clones[..n]);
      assert forall k :: 0 <= k < n ==> clones[..n][k] == clones[k];
    }
  }

  // Every slot of one of the first `limit` LEDs of the list holds that LED's value.
  ghost predicate Slots<T>(owners: seq<int>, leds: seq<Led>, values: seq<T>, limit: nat, r: seq<T>) {
    && limit <= |leds| == |values| && |r| == |owners|
    && forall p, j :: 0 <= p < |owners| && 0 <= j < limit && owners[p] == leds[j].index ==> r[p] == values[j]
  }

  lemma SlotsStart<T>(leds: seq<Led>, values: seq<T>)
    requires Strict(Indices(leds)) && |values| == |leds|
    ensures Slots(Indices(leds), leds, values, |leds|, values)
  {
    var o := Indices(leds);
    forall p, j | 0 <= p < |leds| && 0 <= j < |leds| && o[p] == leds[j].index
      ensures p == j
    {
      assert o[p] == o[j] && !(p < j) && !(j < p);
    }
  }

  // Inserting a value for another LED keeps the slots.
  lemma SlotsKept<T>(owners: seq<int>, leds: seq<Led>, values: seq<T>, limit: nat, r: seq<T>, idx: nat, x: T)
    requires Slots(owners, leds, values, limit, r) && idx <= |owners|
    requires forall j :: 0 <= j < limit ==> leds[j].index != idx
    ensures Slots(InsertAt(owners, idx, idx), leds, values, limit, InsertAt(r, idx, x))
  {
  }

  // Inserting the value of the next LED of the list adds its slot.
  lemma SlotsAdd<T>(owners: seq<int>, leds: seq<Led>, values: seq<T>, limit: nat, r: seq<T>)
    requires Slots(owners, leds, values, limit, r) && limit < |leds|
    requires leds[limit].index <= |owners| && leds[limit].index !in owners
    requires forall j :: 0 <= j < limit ==> leds[j].index != leds[limit].index
    ensures var idx := leds[limit].index;
            Slots(InsertAt(owners, idx, idx), leds, values, limit + 1, InsertAt(r, idx, values[limit]))
  {
    var idx := leds[limit].index;
    var o, r' := InsertAt(owners, idx, idx), InsertAt(r, idx, values[limit]);
    assert forall p :: 0 <= p < |o| && o[p] == idx ==> p == idx by {
      forall p | 0 <= p < |o| && p != idx
        ensures o[p] != idx
      {
        assert o[p] == owners[if p < idx then p else p - 1];
      }
    }
  }

  lemma IndexAbsent(leds: seq<Led>, limit: nat, idx: int)
    requires limit <= |leds| && idx !in Indices(leds[..limit])
    ensures forall j :: 0 <= j < limit ==> leds[j].index != idx
  {
    assert forall j :: 0 <= j < limit ==> Indices(leds[..limit])[j] == leds[j].index;
  }

  // Every clone is inserted within what is there by then, as `insert` demands.
  predicate Insertable(originals: seq<Led>, clones: seq<Led>) {
    forall k :: 0 <= k < |clones| ==> clones[k].index <= |originals| + k
  }

  lemma StripIsInsertable(originals: seq<Led>, clones: seq<Led>, total: nat)
    requires Strip(originals, clones, total)
    ensures Insertable(originals, clones)
  {
    forall k | 0 <= k < |clones|
      ensures clones[k].index <= |originals| + k
    {
      OwnersSoFar(originals, clones, total, k);
    }
  }

  lemma {:induction false} OrdersLength(originals: seq<Led>, clones: seq<Led>)
    ensures |OrdersOf(originals, clones)| == |originals| + |clones|
  {
    if clones != [] {
      OrdersLength(originals, clones[..|clones| - 1]);
    }
  }

  // What the k-th insertion finds: a valid position, of a LED not yet in the strip.
  lemma NextInsertion(originals: seq<Led>, clones: seq<Led>, total: nat, k: nat)
    requires Strip(originals, clones, total) && k < |clones|
    ensures var o, idx := Owners(originals, clones[..k]), clones[k].index;
            && idx <= |o| && idx !in o
            && Owners(originals, clones[..k + 1]) == InsertAt(o, idx, idx)
            && (forall j :: 0 <= j < |originals| ==> originals[j].index != idx)
            && (forall j :: 0 <= j < k ==> clones[j].index != idx)
  {
    hide Strict;
    OwnersSoFar(originals, clones, total, k);
    NextIsMissing(originals, clones, total, k);
    assert clones[..k + 1][..k] == clones[..k] && originals[..|originals|] == originals;
    IndexAbsent(originals, |originals|, clones[k].index);
    IndexAbsent(clones, k, clones[k].index);
  }

  // In the slot of every clone with an earlier source: the colour of that source.
  ghost predicate Copied(clones: seq<Led>, k: nat, b: seq<ColorRgb>)
    requires k <= |clones|
  {
    forall i :: 0 <= i < k && 0 <= clones[i].clone < clones[i].index ==>
      clones[i].index < |b| && b[clones[i].index] == b[clones[i].clone]
  }

  lemma CopyNext(clones: seq<Led>, k: nat, b: seq<ColorRgb>)
    requires k < |clones| && Copied(clones, k, b) && Strict(Indices(clones))
    requires clones[k].index <= |b| && 0 <= clones[k].clone < |b|
    ensures Copied(clones, k + 1, InsertAt(b, clones[k].index, b[clones[k].clone]))
  {
    forall i | 0 <= i < k
      ensures clones[i].index < clones[k].index
    {
      assert Indices(clones)[i] < Indices(clones)[k];
    }
  }

  lemma {:induction false} AllPlaced(originals: seq<Led>, clones: seq<Led>, total: nat, buf: seq<ColorRgb>, k: nat)
    requires Strip(originals, clones, total) && |buf| == |originals| && k <= |clones|
    ensures var o, r := Owners(originals, clones[..k]), InsertClones(buf, clones[..k]);
            r.Some? ==> Slots(o, originals, buf, |originals|, r.value) && Copied(clones, k, r.value)
  {
    hide Slots, Copied, Strict;
    if k == 0 {
      assert clones[..0] == [];
      SlotsStart(originals, buf);
      CopiedNone(clones, buf);
    } else {
      AllPlaced(originals, clones, total, buf, k - 1);
      NextInsertion(originals, clones, total, k - 1);
      var o, c, before := Owners(originals, clones[..k - 1]), clones[k - 1], InsertClones(buf, clones[..k - 1]);
      assert clones[..k][..k - 1] == clones[..k - 1];
      if before.Some? && 0 <= c.clone < |before.value| {
        SlotsLength(o, originals, buf, |originals|, before.value);
        SlotsKept(o, originals, buf, |originals|, before.value, c.index, before.value[c.clone]);
        CopyNext(clones, k - 1, before.value);
      }
    }
  }

  lemma CopiedNone(clones: seq<Led>, b: seq<ColorRgb>)
    ensures Copied(clones, 0, b)
  {
  }

  lemma SlotsLength<T>(owners: seq<int>, leds: seq<Led>, values: seq<T>, limit: nat, r: seq<T>)
    requires Slots(owners, leds, values, limit, r)
    ensures |r| == |owners|
  {
  }

  // Main result: inserting the clones leaves the colour of LED i in slot i, and a clone with an
  // earlier source shows the colour of that source.
  lemma SlotsAreLeds(originals: seq<Led>, clones: seq<Led>, total: nat, buf: seq<ColorRgb>)
    requires Strip(originals, clones, total) && |buf| == |originals|
    ensures var r := InsertClones(buf, clones);
            r.Some? ==>
              && |r.value| == total
              && (forall j :: 0 <= j < |originals| ==>
                    originals[j].index < total && r.value[originals[j].index] == buf[j])
              && (forall i :: 0 <= i < |clones| && 0 <= clones[i].clone < clones[i].index ==>
                    clones[i].index < total && r.value[clones[i].index] == r.value[clones[i].clone])
  {
    AllPlaced(originals, clones, total, buf, |clones|);
    OwnersComplete(originals, clones, total);
    assert clones[..|clones|] == clones;
    IndicesBounded(originals, clones, total);
  }

  lemma IndicesBounded(originals: seq<Led>, clones: seq<Led>, total: nat)
    requires Strip(originals, clones, total)
    ensures forall j :: 0 <= j < |originals| ==> originals[j].index < total
    ensures forall i :: 0 <= i < |clones| ==> clones[i].index < total
  {
    assert forall j :: 0 <= j < |originals| ==> Indices(originals)[j] in Indices(originals);
    assert forall i :: 0 <= i < |clones| ==> Indices(clones)[i] in Indices(clones);
  }

  // No insertion throws when every source lies before its clone.
  lemma EarlierSourcesNeverThrow(originals: seq<Led>, clones: seq<Led>, total: nat, buf: seq<ColorRgb>)
    requires Strip(originals, clones, total) && |buf| == |originals|
    requires forall i :: 0 <= i < |clones| ==> 0 <= clones[i].clone < clones[i].index
    ensures InsertClones(buf, clones).Some?
  {
    InsertedLength(buf, clones);
    forall k | 0 <= k < |clones|
      ensures clones[k].clone < |buf| + k
    {
      OwnersSoFar(originals, clones, total, k);
    }
  }

  function ColorOrders(leds: seq<Led>): (r: seq<ColorOrder>)
    ensures |r| == |leds| && forall i :: 0 <= i < |r| ==> r[i] == leds[i].colorOrder
  {
    seq(|leds|, i requires 0 <= i < |leds| => leds[i].colorOrder)
  }

  lemma {:induction false} OrdersSoFar(originals: seq<Led>, clones: seq<Led>, total: nat, k: nat)
    requires Strip(originals, clones, total) && k <= |clones|
    ensures var o, r := Owners(originals, clones[..k]), OrdersOf(originals, clones[..k]);
            Slots(o, originals, ColorOrders(originals), |originals|, r) && Slots(o, clones, ColorOrders(clones), k, r)
  {
    hide Slots, Strict;
    if k == 0 {
      assert clones[..0] == [];
      assert OrdersOf(originals, []) == ColorOrders(originals);
      SlotsStart(originals, ColorOrders(originals));
      SlotsNone(originals, clones);
    } else {
      OrdersSoFar(originals, clones, total, k - 1);
      NextInsertion(originals, clones, total, k - 1);
      var o, c, before := Owners(originals, clones[..k - 1]), clones[k - 1], OrdersOf(originals, clones[..k - 1]);
      assert clones[..k][..k - 1] == clones[..k - 1];
      SlotsLength(o, originals, ColorOrders(originals), |originals|, before);
      SlotsKept(o, originals, ColorOrders(originals), |originals|, before, c.index, c.colorOrder);
      SlotsAdd(o, clones, ColorOrders(clones), k - 1, before);
    }
  }

  lemma SlotsNone(originals: seq<Led>, clones: seq<Led>)
    ensures Slots(Indices(originals), clones, ColorOrders(clones), 0, ColorOrders(originals))
  {
  }

  // Main result: slot i of the colour-order list has the order of LED i.
  lemma OrdersAreLeds(originals: seq<Led>, clones: seq<Led>, total: nat)
    requires Strip(originals, clones, total)
    ensures var r := OrdersOf(originals, clones);
            && |r| == total
            && (forall j :: 0 <= j < |originals| ==>
                  originals[j].index < total && r[originals[j].index] == originals[j].colorOrder)
            && (forall i :: 0 <= i < |clones| ==> clones[i].index < total && r[clones[i].index] == clones[i].colorOrder)
  {
    OrdersSoFar(originals, clones, total, |clones|);
    OwnersComplete(originals, clones, total);
    assert clones[..|clones|] == clones;
    IndicesBounded(originals, clones, total);
  }

  // ---------------------------------------------------------------- byte order and extra LEDs

  // The bytes of a colour in the order the LED expects them.
  function Ordered(c: ColorRgb, order: ColorOrder): ColorRgb {
    match order
    case RGB => c
    case RBG => ColorRgb(c.red, c.blue, c.green)
    case GRB => ColorRgb(c.green, c.red, c.blue)
    case BRG => ColorRgb(c.blue, c.red, c.green)
    case GBR => ColorRgb(c.green, c.blue, c.red)
    case BGR => ColorRgb(c.blue, c.green, c.red)
  }

  // The channels in the order of the letters an order is named by.
  function Name(order: ColorOrder): string {
    match order
    case RGB => "rgb"
    case RBG => "rbg"
    case GRB => "grb"
    case BRG => "brg"
    case GBR => "gbr"
    case BGR => "bgr"
  }

  function Letter(ch: Channel): char {
    match ch
    case Red => 'r'
    case Green => 'g'
    case Blue => 'b'
  }

  // The three bytes sent for a colour are its channels in the order of the name.
  lemma BytesInNamedOrder(c: ColorRgb, order: ColorOrder, ch: Channel, j: nat)
    requires j < 3 && Name(order)[j] == Letter(ch)
    ensures var sent := Ordered(c, order);
            [sent.red, sent.green, sent.blue][j] == Get(c, ch)
  {
  }

  function Resize(buf: seq<ColorRgb>, n: nat): seq<ColorRgb> {
    if n <= |buf| then buf[..n] else buf + seq(n - |buf|, _ => BLACK)
  }

  function OrderAll(buf: seq<ColorRgb>, orders: seq<ColorOrder>): (r: seq<ColorRgb>)
    requires |buf| <= |orders|
    ensures |r| == |buf| && forall i :: 0 <= i < |r| ==> r[i] == Ordered(buf[i], orders[i])
  {
    seq(|buf|, i requires 0 <= i < |buf| => Ordered(buf[i], orders[i]))
  }

  // The second half of Hyperion::update; `at` throws for a slot without a colour order.
  function Finish(buf: seq<ColorRgb>, clones: seq<Led>, orders: seq<ColorOrder>, hwLedCount: nat): Option<seq<ColorRgb>>
  {
    match InsertClones(buf, clones)
    case None => None
    case Some(b) =>
      if |b| > |orders| then None
      else Some(if hwLedCount > |b| then Resize(OrderAll(b, orders), hwLedCount) else OrderAll(b, orders))
  }

  // Main result: one update from a buffer with a colour for every original LED gives each LED of
  // the strip its colour in its own byte order, and black to the LEDs the hardware has beyond.
  lemma UpdateShowsStrip(originals: seq<Led>, clones: seq<Led>, total: nat, buf: seq<ColorRgb>, hwLedCount: nat)
    requires Strip(originals, clones, total) && |buf| == |originals|
    requires forall i :: 0 <= i < |clones| ==> 0 <= clones[i].clone < clones[i].index
    ensures var strip := InsertClones(buf, clones);
            var out := Finish(buf, clones, OrdersOf(originals, clones), hwLedCount);
            && strip.Some? && |strip.value| == total && out.Some? && |out.value| == Max(total, hwLedCount)
            && (forall j :: 0 <= j < |originals| ==>
                  && originals[j].index < total && strip.value[originals[j].index] == buf[j]
                  && out.value[originals[j].index] == Ordered(buf[j], originals[j].colorOrder))
            && (forall i :: 0 <= i < |clones| ==>
                  && clones[i].index < total
                  && out.value[clones[i].index] == Ordered(strip.value[clones[i].clone], clones[i].colorOrder))
            && (forall k :: total <= k < |out.value| ==> out.value[k] == BLACK)
  {
    hide InsertClones, OrdersOf, Strip, Ordered;
    EarlierSourcesNeverThrow(originals, clones, total, buf);
    SlotsAreLeds(originals, clones, total, buf);
    OrdersAreLeds(originals, clones, total);
  }

  // A channel without colours cannot be shown on a strip with clones: the first insertion throws.
  lemma EmptyShowsIff(clones: seq<Led>, orders: seq<ColorOrder>, hwLedCount: nat)
    ensures Finish([], clones, orders, hwLedCount).Some? <==> clones == []
  {
    InsertedLength([], clones);
    ghost var sources := seq(|clones|, k requires 0 <= k < |clones| => clones[k].clone);
    assert clones != [] ==> sources[0] == clones[0].clone;
  }

  // A further image update: the buffer shrinks back only if the hardware has more LEDs than it,
  // and a buffer of another length keeps its old colours.
  function ImageUpdate(buffer: seq<ColorRgb>, means: seq<ColorRgb>, clones: seq<Led>, orders: seq<ColorOrder>,
                       hwLedCount: nat): Option<seq<ColorRgb>>
  {
    var b := if hwLedCount > |buffer| then Resize(buffer, |means|) else buffer;
    Finish(if |b| == |means| then means else b, clones, orders, hwLedCount)
  }

  // Main result, stated exactly: the image update after a successful one succeeds again if and
  // only if there is neither a clone nor an extra hardware LED.
  lemma SecondImageUpdateIff(
    originals: seq<Led>, clones: seq<Led>, total: nat, first: seq<ColorRgb>, second: seq<ColorRgb>, hwLedCount: nat)
    requires Strip(originals, clones, total) && |first| == |second| == |originals| <= hwLedCount
    requires forall i :: 0 <= i < |clones| ==> 0 <= clones[i].clone < clones[i].index
    ensures var orders := OrdersOf(originals, clones);
            var out := ImageUpdate(first, first, clones, orders, hwLedCount);
            out.Some? && (ImageUpdate(out.value, second, clones, orders, hwLedCount).Some?
                          <==> clones == [] && hwLedCount == |originals|)
  {
    hide Strip, InsertClones, OrdersOf, Ordered;
    var orders := OrdersOf(originals, clones);
    OrdersAreLeds(originals, clones, total);
    OwnersComplete(originals, clones, total);
    EarlierSourcesNeverThrow(originals, clones, total, first);
    EarlierSourcesNeverThrow(originals, clones, total, second);
    UpdateShowsStrip(originals, clones, total, first, hwLedCount);
    var start := if hwLedCount > |first| then Resize(first, |first|) else first;
    assert ImageUpdate(first, first, clones, orders, hwLedCount) == Finish(first, clones, orders, hwLedCount);
    var out := Finish(first, clones, orders, hwLedCount).value;
    InsertedLength(first, clones);
    InsertedLength(second, clones);
    InsertedLength(out, clones);
  }

  // Without clones and extra hardware LEDs every image update shows its own image, whatever
  // was shown before.
  lemma PlainUpdatesShowImage(originals: seq<Led>, buffer: seq<ColorRgb>, means: seq<ColorRgb>)
    requires |buffer| == |means| == |originals|
    ensures var out := ImageUpdate(buffer, means, [], OrdersOf(originals, []), |originals|);
            out.Some? && |out.value| == |means|
            && forall i :: 0 <= i < |means| ==> out.value[i] == Ordered(means[i], originals[i].colorOrder)
  {
    hide Ordered;
  }

  // ---------------------------------------------------------------- the failing cases, reached

  function Entry(index: nat, clone: int): LedConfig {
    LedConfig(index, clone, 0.0, 1.0, 0.0, 1.0, RGB)
  }

  lemma SelectMore(configs: seq<LedConfig>, c: LedConfig, count: int, clones: bool)
    ensures Select(configs + [c], count, clones) ==
            Select(configs, count, clones) + if OfKind(c, count, clones) then [LedOf(c, clones)] else []
  {
    assert (configs + [c])[..|configs|] == configs;
  }

  lemma SingleSorted(led: Led)
    ensures SortByIndex([led]) == [led]
  {
    assert SortByIndex([led][..0]) == [];
  }

  lemma TrioClones()
    ensures Clones([Entry(0, 1), Entry(1, -1), Entry(2, -1)]) == [CloneLed(Entry(0, 1))]
  {
    var c0, c1, c2 := Entry(0, 1), Entry(1, -1), Entry(2, -1);
    assert [c0] == [] + [c0] && [c0, c1] == [c0] + [c1] && [c0, c1, c2] == [c0, c1] + [c2];
    SelectMore([], c0, 3, true);
    SelectMore([c0], c1, 3, true);
    SelectMore([c0, c1], c2, 3, true);
    assert Select([], 3, true) == [];
    hide Select, SortByIndex;
    assert Select([c0, c1, c2], 3, true) == [CloneLed(c0)];
    SingleSorted(CloneLed(c0));
  }

  lemma NoneAndAll<T>(s: seq<T>)
    ensures s[..0] == [] && s[..|s|] == s
  {
  }

  lemma SingleInserted(led: Led, buf: seq<ColorRgb>)
    requires 0 <= led.clone < |buf| && led.index <= |buf|
    ensures InsertClones(buf, [led]) == Some(InsertAt(buf, led.index, buf[led.clone]))
  {
    hide InsertClones, InsertAt;
    var clones := [led];
    NoneAndAll(clones);
    InsertNone(buf);
    InsertNext(buf, clones, 0, buf);
  }

  // LED 0 is configured to show LED 1 and shows LED 2.
  lemma LaterSourceShowsNeighbour(red: ColorRgb, green: ColorRgb)
    ensures var configs := [Entry(0, 1), Entry(1, -1), Entry(2, -1)];
            IndexPermutation(configs) && InsertClones([red, green], Clones(configs)) == Some([green, red, green])
  {
    hide Clones, InsertClones;
    TrioClones();
    SingleInserted(CloneLed(Entry(0, 1)), [red, green]);
    assert InsertAt([red, green], 0, green) == [green, red, green];
  }

  lemma PairConfig()
    ensures var configs := [Entry(0, -1), Entry(1, 0)];
            && IndexPermutation(configs)
            && Originals(configs) == [OriginalLed(configs[0])] && Clones(configs) == [CloneLed(configs[1])]
  {
    var c0, c1 := Entry(0, -1), Entry(1, 0);
    assert [c0] == [] + [c0] && [c0, c1] == [c0] + [c1];
    SelectMore([], c0, 2, true);
    SelectMore([c0], c1, 2, true);
    SelectMore([], c0, 2, false);
    SelectMore([c0], c1, 2, false);
    assert Select([], 2, true) == [] && Select([], 2, false) == [];
    SingleSorted(CloneLed(c1));
    SingleSorted(OriginalLed(c0));
    hide Select, SortByIndex;
    assert Select([c0, c1], 2, true) == [CloneLed(c1)] && Select([c0, c1], 2, false) == [OriginalLed(c0)];
  }

  // A strip of one LED and its clone shows one image and throws on the next.
  lemma SecondImageThrows(c: ColorRgb, c': ColorRgb)
    ensures var configs := [Entry(0, -1), Entry(1, 0)];
            var clones, orders := Clones(configs), OrdersOf(Originals(configs), Clones(configs));
            var out := ImageUpdate([c], [c], clones, orders, 1);
            IndexPermutation(configs) && out.Some? && ImageUpdate(out.value, [c'], clones, orders, 1) == None
  {
    hide Select, SortByIndex, InsertClones, OrdersOf, Strip, IndexPermutation, Originals, Clones, Finish, Resize;
    var configs := [Entry(0, -1), Entry(1, 0)];
    PairConfig();
    ConfigMakesStrip(configs);
    SecondImageUpdateIff(Originals(configs), Clones(configs), 2, [c], [c'], 1);
  }
}

module Strips {
  import opened Wrappers
  import opened Colors
  import opened Leds
  import opened Arithmetic
  import opened StripSpec

  // createLedString: the entries that are no clones, clamped and ordered, sorted by index.
  method CreateLedString(configs: seq<LedConfig>) returns (leds: seq<Led>)
    ensures leds == Originals(configs)
    ensures forall led :: led in leds ==> Normalised(led)
  {
    leds := [];
    var i := 0;
    while i < |configs|
      invariant 0 <= i <= |configs|
      invariant leds == Select(configs[..i], |configs|, false)
      invariant forall led :: led in leds ==> Normalised(led)
    {
      var c := configs[i];
      assert configs[..i + 1][..i] == configs[..i];
      var clone := c.clone;
      if clone < -1 || clone >= |configs| {
        clone := -1;
      }
      if clone < 0 {
        var minX, maxX, minY, maxY := Clamp(c.hMin), Clamp(c.hMax), Clamp(c.vMin), Clamp(c.vMax);
        if minX > maxX {
          minX, maxX := maxX, minX;
        }
        if minY > maxY {
          minY, maxY := maxY, minY;
        }
        leds := leds + [Led(c.index, minX, maxX, minY, maxY, clone, c.colorOrder)];
      }
      i := i + 1;
    }
    assert configs[..i] == configs;
    SortIsSorted(leds);
    assert forall led :: led in SortByIndex(leds) ==> led in multiset(SortByIndex(leds));
    leds := SortByIndex(leds);
  }

  // createLedStringClone: the clones, sorted by index.
  method CreateLedStringClone(configs: seq<LedConfig>) returns (leds: seq<Led>)
    ensures leds == Clones(configs)
  {
    leds := [];
    var i := 0;
    while i < |configs|
      invariant 0 <= i <= |configs|
      invariant leds == Select(configs[..i], |configs|, true)
    {
      var c := configs[i];
      assert configs[..i + 1][..i] == configs[..i];
      var clone := c.clone;
      if clone < -1 || clone >= |configs| {
        clone := -1;
      }
      if clone >= 0 {
        leds := leds + [Led(c.index, 0.0, 0.0, 0.0, 0.0, clone, c.colorOrder)];
      }
      i := i + 1;
    }
    assert configs[..i] == configs;
    leds := SortByIndex(leds);
  }

  class Hyperion {
    const ledString: seq<Led>
    const ledStringClone: seq<Led>
    const hwLedCount: nat
    const ledStringColorOrder: seq<ColorOrder>
    var ledBuffer: seq<ColorRgb>

    constructor (configs: seq<LedConfig>, hardwareLedCount: nat)
      requires Insertable(Originals(configs), Clones(configs))
      ensures ledString == Originals(configs) && ledStringClone == Clones(configs)
      ensures ledStringColorOrder == OrdersOf(ledString, ledStringClone)
      ensures hwLedCount == Max(hardwareLedCount, |ledString|) && ledBuffer == seq(|ledString|, _ => BLACK)
    {
      var leds := CreateLedString(configs);
      var clones := CreateLedStringClone(configs);
      var orders: seq<ColorOrder> := [];
      var i := 0;
      while i < |leds|
        invariant 0 <= i <= |leds| && orders == ColorOrders(leds[..i])
      {
        orders := orders + [leds[i].colorOrder];
        i := i + 1;
      }
      assert leds[..i] == leds && orders == OrdersOf(leds, []);
      i := 0;
      while i < |clones|
        invariant 0 <= i <= |clones|
        invariant orders == OrdersOf(leds, clones[..i])
      {
        OrdersLength(leds, clones[..i]);
        assert clones[..i + 1][..i] == clones[..i];
        orders := orders[..clones[i].index] + [clones[i].colorOrder] + orders[clones[i].index..];
        i := i + 1;
      }
      assert clones[..i] == clones;
      ledString, ledStringClone := leds, clones;
      hwLedCount := Max(hardwareLedCount, |leds|);
      ledStringColorOrder := orders;
      ledBuffer := seq(|leds|, _ => BLACK);
    }

    // Hyperion::update after the colours are adjusted; false stands for the exception of `at`.
    // The buffer holds the colours of an image or of a channel, which may have none.
    method FinishUpdate() returns (ok: bool)
      requires Insertable(ledString, ledStringClone) && (|ledBuffer| >= |ledString| || ledBuffer == [])
      modifies this
      ensures ok == Finish(old(ledBuffer), ledStringClone, ledStringColorOrder, hwLedCount).Some?
      ensures ok ==> Some(ledBuffer) == Finish(old(ledBuffer), ledStringClone, ledStringColorOrder, hwLedCount)
    {
      hide InsertClones;
      ok := InsertCloned();
      if ok {
        ok := OrderBytes();
      }
      if ok && hwLedCount > |ledBuffer| {
        ledBuffer := ledBuffer + seq(hwLedCount - |ledBuffer|, _ => BLACK);
      }
    }

    method InsertCloned() returns (ok: bool)
      requires Insertable(ledString, ledStringClone) && (|ledBuffer| >= |ledString| || ledBuffer == [])
      modifies this
      ensures InsertClones(old(ledBuffer), ledStringClone) == if ok then Some(ledBuffer) else None
    {
      hide InsertClones;
      InsertNone(ledBuffer);
      assert ledStringClone[..0] == [];
      var n := 0;
      while n < |ledStringClone|
        invariant 0 <= n <= |ledStringClone|
        invariant InsertClones(old(ledBuffer), ledStringClone[..n]) == Some(ledBuffer)
        invariant |ledBuffer| >= |ledString| + n || (n == 0 && ledBuffer == [])
      {
        var led := ledStringClone[n];
        InsertNext(old(ledBuffer), ledStringClone, n, ledBuffer);
        if led.clone < 0 || led.clone >= |ledBuffer| {
          ThrowsEarly(old(ledBuffer), ledStringClone, n + 1);
          return false;
        }
        ledBuffer := ledBuffer[..led.index] + [ledBuffer[led.clone]] + ledBuffer[led.index..];
        n := n + 1;
      }
      assert ledStringClone[..n] == ledStringClone;
      ok := true;
    }

    method OrderBytes() returns (ok: bool)
      modifies this
      ensures ok == (|old(ledBuffer)| <= |ledStringColorOrder|)
      ensures ok ==> ledBuffer == OrderAll(old(ledBuffer), ledStringColorOrder)
    {
      hide Ordered;
      var i := 0;
      while i < |ledBuffer|
        invariant 0 <= i <= |ledBuffer| == |old(ledBuffer)|
        invariant i <= |ledStringColorOrder|
        invariant forall k :: 0 <= k < i ==> ledBuffer[k] == Ordered(old(ledBuffer)[k], ledStringColorOrder[k])
        invariant forall k :: i <= k < |ledBuffer| ==> ledBuffer[k] == old(ledBuffer)[k]
      {
        if i >= |ledStringColorOrder| {
          return false;
        }
        var color := CorrectOrder(ledBuffer[i], ledStringColorOrder[i]);
        ledBuffer := ledBuffer[i := color];
        i := i + 1;
      }
      ok := true;
    }

    static method CorrectOrder(c: ColorRgb, order: ColorOrder) returns (r: ColorRgb)
      ensures r == Ordered(c, order)
    {
      var red, green, blue := c.red, c.green, c.blue;
      match order {
        case RGB =>
        case BGR => red, blue := blue, red;
        case RBG => green, blue := blue, green;
        case GRB => red, green := green, red;
        case GBR =>
          red, green := green, red;
          green, blue := blue, green;
        case BRG =>
          red, blue := blue, red;
          green, blue := blue, green;
      }
      r := ColorRgb(red, green, blue);
    }

    static lemma {:induction false} ThrowsEarly(buf: seq<ColorRgb>, clones: seq<Led>, n: nat)
      requires n <= |clones| && InsertClones(buf, clones[..n]) == None
      ensures InsertClones(buf, clones) == None
      decreases |clones| - n
    {
      if n < |clones| {
        assert clones[..n + 1][..n] == clones[..n];
        ThrowsEarly(buf, clones, n + 1);
      } else {
        assert clones[..n] == clones;
      }
    }
  }
}
