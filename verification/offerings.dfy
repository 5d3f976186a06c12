/**
  The Products and Services lists of the revenue calculator. Each list is an
  ordered sequence of offerings plus the running counter its default names are
  drawn from. Ids come from the clock (`Date.now()`) and are a parameter here.
 */
module Offerings {
  import Decimal

  datatype Kind = Product | Service

  datatype Offering = Offering(id: string, name: string, price: real)

  /** One list with the counter of default names issued so far. */
  datatype OfferingList = OfferingList(items: seq<Offering>, counter: nat)

  function Prefix(kind: Kind): string {
    match kind
    case Product => "Product "
    case Service => "Service "
  }

  /** The name an offering gets when it is added as the `k`-th of its kind. */
  function DefaultName(kind: Kind, k: nat): string {
    Prefix(kind) + Decimal.NatToString(k)
  }

  /** Default names differ whenever their kinds or their numbers do. */
  lemma DefaultNameInjective(kind1: Kind, j: nat, kind2: Kind, k: nat)
    ensures DefaultName(kind1, j) == DefaultName(kind2, k) ==> kind1 == kind2 && j == k
  {
    var a, b := DefaultName(kind1, j), DefaultName(kind2, k);
    if a == b {
      assert |Prefix(kind1)| == |Prefix(kind2)| == 8;
      assert Prefix(kind1) == a[..8] && Prefix(kind2) == b[..8];
      assert a[..8][0] == b[..8][0];
      assert Decimal.NatToString(j) == a[8..] && Decimal.NatToString(k) == b[8..];
      Decimal.NatToStringInjective(j, k);
    }
  }

  /** `name` is one of the first `counter` default names of `kind`. */
  ghost predicate Issued(kind: Kind, name: string, counter: nat) {
    exists k :: 1 <= k <= counter && name == DefaultName(kind, k)
  }

  predicate DistinctNames(s: seq<Offering>) {
    forall i, j :: 0 <= i < j < |s| ==> s[i].name != s[j].name
  }

  predicate DistinctIds(s: seq<Offering>) {
    forall i, j :: 0 <= i < j < |s| ==> s[i].id != s[j].id
  }

  predicate IdAbsent(s: seq<Offering>, id: string) {
    forall k :: 0 <= k < |s| ==> s[k].id != id
  }

  /**
    The name invariant: every name in the list was issued by the counter, and
    no two entries share a name.
   */
  ghost predicate Valid(kind: Kind, l: OfferingList) {
    && (forall i :: 0 <= i < |l.items| ==> Issued(kind, l.items[i].name, l.counter))
    && DistinctNames(l.items)
  }

  /** The three zero-priced entries a list starts with, ids "1" to "3". */
  function Initial(kind: Kind): (l: OfferingList)
    ensures |l.items| == 3 && l.counter == 3
    ensures forall i :: 0 <= i < 3 ==> l.items[i].price == 0.0
    ensures Valid(kind, l) && DistinctIds(l.items)
  {
    var l := OfferingList([Offering("1", DefaultName(kind, 1), 0.0),
                           Offering("2", DefaultName(kind, 2), 0.0),
                           Offering("3", DefaultName(kind, 3), 0.0)], 3);
    DefaultNameInjective(kind, 1, kind, 2);
    DefaultNameInjective(kind, 1, kind, 3);
    DefaultNameInjective(kind, 2, kind, 3);
    assert Issued(kind, l.items[0].name, 3);
    assert Issued(kind, l.items[1].name, 3);
    assert Issued(kind, l.items[2].name, 3);
    l
  }

  // ---------------------------------------------------------------- add

  /** Appends a zero-priced entry named from the incremented counter. */
  function Add(kind: Kind, l: OfferingList, id: string): (r: OfferingList)
    ensures r.counter == l.counter + 1
    ensures |r.items| == |l.items| + 1 && r.items[..|l.items|] == l.items
    ensures r.items[|l.items|] == Offering(id, DefaultName(kind, l.counter + 1), 0.0)
  {
    var newCounter := l.counter + 1;
    OfferingList(l.items + [Offering(id, DefaultName(kind, newCounter), 0.0)], newCounter)
  }

  /** The name an add hands out was never issued before. */
  lemma AddNameIsFresh(kind: Kind, l: OfferingList, id: string, name: string)
    requires Issued(kind, name, l.counter)
    ensures Add(kind, l, id).items[|l.items|].name != name
  {
    var k :| 1 <= k <= l.counter && name == DefaultName(kind, k);
    DefaultNameInjective(kind, k, kind, l.counter + 1);
  }

  lemma AddPreservesValid(kind: Kind, l: OfferingList, id: string)
    requires Valid(kind, l)
    ensures Valid(kind, Add(kind, l, id))
  {
    var r := Add(kind, l, id);
    var n := |l.items|;
    forall i | 0 <= i < |r.items|
      ensures Issued(kind, r.items[i].name, r.counter)
    {
      if i < n {
        assert r.items[i] == l.items[i];
        assert Issued(kind, l.items[i].name, l.counter);
        var k :| 1 <= k <= l.counter && l.items[i].name == DefaultName(kind, k);
      } else {
        assert r.items[i].name == DefaultName(kind, r.counter);
      }
    }
    forall i, j | 0 <= i < j < |r.items|
      ensures r.items[i].name != r.items[j].name
    {
      assert r.items[i] == l.items[i];
      if j == n {
        AddNameIsFresh(kind, l, id, l.items[i].name);
      } else {
        assert r.items[j] == l.items[j];
      }
    }
  }

  /** With a clock reading no entry already has, ids stay distinct. */
  lemma AddPreservesDistinctIds(kind: Kind, l: OfferingList, id: string)
    requires DistinctIds(l.items) && IdAbsent(l.items, id)
    ensures DistinctIds(Add(kind, l, id).items)
  {
    var r := Add(kind, l, id);
    forall i, j | 0 <= i < j < |r.items|
      ensures r.items[i].id != r.items[j].id
    {
      assert r.items[i] == l.items[i];
      if j < |l.items| {
        assert r.items[j] == l.items[j];
      }
    }
  }

  // ---------------------------------------------------------------- remove

  /** The entries whose id is not `id`, in their original order. */
  function Without(s: seq<Offering>, id: string): (t: seq<Offering>)
    ensures forall o :: multiset(t)[o] == if o.id == id then 0 else multiset(s)[o]
    ensures |t| <= |s|
    decreases |s|
  {
    if |s| == 0 then []
    else
      assert s == [s[0]] + s[1..];
      if s[0].id == id then Without(s[1..], id) else [s[0]] + Without(s[1..], id)
  }

  /** Filtering distributes over concatenation: survivors keep their relative order. */
  lemma {:induction false} WithoutAppend(a: seq<Offering>, b: seq<Offering>, id: string)
    ensures Without(a + b, id) == Without(a, id) + Without(b, id)
    decreases |a|
  {
    if |a| == 0 {
      assert a + b == b;
    } else {
      assert (a + b)[1..] == a[1..] + b;
      WithoutAppend(a[1..], b, id);
    }
  }

  /** Every survivor of the filter is an entry of the original list without the id. */
  lemma WithoutSurvivor(s: seq<Offering>, id: string, o: Offering)
    requires o in Without(s, id)
    ensures o in s && o.id != id
  {
    assert multiset(Without(s, id))[o] > 0;
  }

  /** The head of a list with distinct names and ids shares neither with any later entry. */
  lemma HeadDiffersFromTail(s: seq<Offering>, o: Offering)
    requires DistinctNames(s) && DistinctIds(s) && |s| > 0
    requires o in s[1..]
    ensures o.name != s[0].name && o.id != s[0].id
  {
    var k :| 0 <= k < |s[1..]| && s[1..][k] == o;
    assert s[k + 1] == o;
  }

  /** Putting an entry that shares no name or id with a distinct list in front keeps it distinct. */
  lemma ConsPreservesDistinct(x: Offering, t: seq<Offering>)
    requires DistinctNames(t) && DistinctIds(t)
    requires forall o :: o in t ==> o.name != x.name && o.id != x.id
    ensures DistinctNames([x] + t) && DistinctIds([x] + t)
  {
    var u := [x] + t;
    forall i, j | 0 <= i < j < |u|
      ensures u[i].name != u[j].name && u[i].id != u[j].id
    {
      assert u[j] == t[j - 1];
      if i > 0 {
        assert u[i] == t[i - 1];
      }
    }
  }

  /** Filtering keeps names and ids distinct. */
  lemma {:induction false} WithoutPreservesDistinct(s: seq<Offering>, id: string)
    requires DistinctNames(s) && DistinctIds(s)
    ensures DistinctNames(Without(s, id)) && DistinctIds(Without(s, id))
    decreases |s|
  {
    if |s| > 0 {
      assert DistinctNames(s[1..]) && DistinctIds(s[1..]) by {
        forall i, j | 0 <= i < j < |s[1..]|
          ensures s[1..][i].name != s[1..][j].name && s[1..][i].id != s[1..][j].id
        {
          assert s[1..][i] == s[i + 1] && s[1..][j] == s[j + 1];
        }
      }
      var tail := Without(s[1..], id);
      WithoutPreservesDistinct(s[1..], id);
      if s[0].id != id {
        forall o | o in tail
          ensures o.name != s[0].name && o.id != s[0].id
        {
          WithoutSurvivor(s[1..], id, o);
          HeadDiffersFromTail(s, o);
        }
        ConsPreservesDistinct(s[0], tail);
      }
    }
  }

  /** Dropping the head keeps ids distinct. */
  lemma TailDistinctIds(s: seq<Offering>)
    requires |s| > 0 && DistinctIds(s)
    ensures DistinctIds(s[1..])
  {
    forall i, j | 0 <= i < j < |s[1..]|
      ensures s[1..][i].id != s[1..][j].id
    {
      assert s[1..][i] == s[i + 1] && s[1..][j] == s[j + 1];
    }
  }

  /**
    The id is absent from the tail when it is absent from the whole list, or
    when ids are distinct and the head carries it.
   */
  lemma TailIdAbsent(s: seq<Offering>, id: string)
    requires |s| > 0
    requires IdAbsent(s, id) || (DistinctIds(s) && s[0].id == id)
    ensures IdAbsent(s[1..], id)
  {
    forall k | 0 <= k < |s[1..]|
      ensures s[1..][k].id != id
    {
      assert s[1..][k] == s[k + 1];
    }
  }

  /** Filtering out an id no entry has keeps the list as it is. */
  lemma {:induction false} WithoutAbsentIsIdentity(s: seq<Offering>, id: string)
    requires IdAbsent(s, id)
    ensures Without(s, id) == s
    decreases |s|
  {
    if |s| > 0 {
      TailIdAbsent(s, id);
      WithoutAbsentIsIdentity(s[1..], id);
      assert s == [s[0]] + s[1..];
    }
  }

  /** With distinct ids, at most one entry is dropped. */
  lemma {:induction false} WithoutDropsAtMostOne(s: seq<Offering>, id: string)
    requires DistinctIds(s)
    ensures |Without(s, id)| >= |s| - 1
    ensures IdAbsent(s, id) ==> Without(s, id) == s
    decreases |s|
  {
    if |s| > 0 {
      var tail := s[1..];
      if s[0].id == id {
        TailIdAbsent(s, id);
        WithoutAbsentIsIdentity(tail, id);
        assert Without(s, id) == tail;
      } else {
        TailDistinctIds(s);
        WithoutDropsAtMostOne(tail, id);
        assert |Without(s, id)| == 1 + |Without(tail, id)|;
      }
    }
    if IdAbsent(s, id) {
      WithoutAbsentIsIdentity(s, id);
    }
  }

  /** Drops every entry with the id, unless the list is down to one entry. */
  function Remove(l: OfferingList, id: string): (r: OfferingList)
    ensures r.counter == l.counter
    ensures |l.items| <= 1 ==> r.items == l.items
    ensures |l.items| > 1 ==>
      forall o :: multiset(r.items)[o] == if o.id == id then 0 else multiset(l.items)[o]
  {
    if |l.items| > 1 then OfferingList(Without(l.items, id), l.counter) else l
  }

  /** With distinct ids a non-empty list never becomes empty. */
  lemma RemoveKeepsOne(l: OfferingList, id: string)
    requires DistinctIds(l.items) && |l.items| >= 1
    ensures |Remove(l, id).items| >= 1
  {
    if |l.items| > 1 {
      WithoutDropsAtMostOne(l.items, id);
    }
  }

  /** Without distinct ids the guard does not protect the list: both entries share an id. */
  lemma RemoveDuplicateIdsEmptiesList()
    ensures Remove(OfferingList([Offering("7", "Product 4", 0.0), Offering("7", "Product 5", 0.0)], 5), "7").items == []
  {
    var s := [Offering("7", "Product 4", 0.0), Offering("7", "Product 5", 0.0)];
    assert s[1..][1..] == [];
  }

  lemma RemovePreservesValid(kind: Kind, l: OfferingList, id: string)
    requires Valid(kind, l) && DistinctIds(l.items)
    ensures Valid(kind, Remove(l, id)) && DistinctIds(Remove(l, id).items)
  {
    var r := Remove(l, id);
    if |l.items| > 1 {
      WithoutPreservesDistinct(l.items, id);
      forall i | 0 <= i < |r.items|
        ensures Issued(kind, r.items[i].name, r.counter)
      {
        WithoutSurvivor(l.items, id, r.items[i]);
      }
    }
  }

  // ---------------------------------------------------------------- update price

  function WithPriceIf(o: Offering, id: string, price: real): Offering {
    if o.id == id then o.(price := price) else o
  }

  /** Sets the price of the entries with the id; everything else stays as it was. */
  function UpdatePrice(l: OfferingList, id: string, price: real): (r: OfferingList)
    ensures r.counter == l.counter && |r.items| == |l.items|
    ensures forall i :: 0 <= i < |l.items| ==>
      r.items[i].id == l.items[i].id && r.items[i].name == l.items[i].name
    ensures forall i :: 0 <= i < |l.items| ==>
      r.items[i].price == if l.items[i].id == id then price else l.items[i].price
  {
    OfferingList(seq(|l.items|, i requires 0 <= i < |l.items| => WithPriceIf(l.items[i], id, price)),
                 l.counter)
  }

  /** Of two price edits on one entry, the later one wins. */
  lemma UpdatePriceLastWins(l: OfferingList, id: string, p: real, q: real)
    ensures UpdatePrice(UpdatePrice(l, id, p), id, q) == UpdatePrice(l, id, q)
  {
    var a := UpdatePrice(UpdatePrice(l, id, p), id, q).items;
    var b := UpdatePrice(l, id, q).items;
    assert |a| == |b|;
    forall i | 0 <= i < |a|
      ensures a[i] == b[i]
    {
    }
  }

  /** Price edits on different entries do not interfere. */
  lemma UpdatePriceCommutes(l: OfferingList, id1: string, p: real, id2: string, q: real)
    requires id1 != id2
    ensures UpdatePrice(UpdatePrice(l, id1, p), id2, q) == UpdatePrice(UpdatePrice(l, id2, q), id1, p)
  {
    var a := UpdatePrice(UpdatePrice(l, id1, p), id2, q).items;
    var b := UpdatePrice(UpdatePrice(l, id2, q), id1, p).items;
    assert |a| == |b|;
    forall i | 0 <= i < |a|
      ensures a[i] == b[i]
    {
    }
  }

  lemma UpdatePricePreservesValid(kind: Kind, l: OfferingList, id: string, price: real)
    requires Valid(kind, l) && DistinctIds(l.items)
    ensures Valid(kind, UpdatePrice(l, id, price)) && DistinctIds(UpdatePrice(l, id, price).items)
  {
    var r := UpdatePrice(l, id, price);
    forall i | 0 <= i < |r.items|
      ensures Issued(kind, r.items[i].name, r.counter)
    {
      assert r.items[i].name == l.items[i].name;
    }
  }

  // ---------------------------------------------------------------- sessions

  /** One user action on a list. */
  datatype ListOp = AddOp(id: string) | RemoveOp(id: string) | SetPriceOp(id: string, price: real)

  function Apply(kind: Kind, l: OfferingList, op: ListOp): OfferingList {
    match op
    case AddOp(id) => Add(kind, l, id)
    case RemoveOp(id) => Remove(l, id)
    case SetPriceOp(id, price) => UpdatePrice(l, id, price)
  }

  function Run(kind: Kind, l: OfferingList, ops: seq<ListOp>): OfferingList
    decreases |ops|
  {
    if |ops| == 0 then l else Run(kind, Apply(kind, l, ops[0]), ops[1..])
  }

  /** The counter value each add of a session leaves behind, in order. */
  function AddedNumbers(kind: Kind, l: OfferingList, ops: seq<ListOp>): seq<nat>
    decreases |ops|
  {
    if |ops| == 0 then []
    else
      var next := Apply(kind, l, ops[0]);
      var rest := AddedNumbers(kind, next, ops[1..]);
      if ops[0].AddOp? then [next.counter] + rest else rest
  }

  /** The names of the entries the adds of a session append, in order. */
  function GeneratedNames(kind: Kind, l: OfferingList, ops: seq<ListOp>): seq<string>
    decreases |ops|
  {
    if |ops| == 0 then []
    else
      var next := Apply(kind, l, ops[0]);
      var rest := GeneratedNames(kind, next, ops[1..]);
      if ops[0].AddOp? then [next.items[|l.items|].name] + rest else rest
  }

  /** The counter advances by exactly the number of adds in a session. */
  lemma {:induction false} RunCounterCountsAdds(kind: Kind, l: OfferingList, ops: seq<ListOp>)
    ensures Run(kind, l, ops).counter == l.counter + |AddedNumbers(kind, l, ops)|
    decreases |ops|
  {
    if |ops| > 0 {
      RunCounterCountsAdds(kind, Apply(kind, l, ops[0]), ops[1..]);
    }
  }

  /** The k-th add of a session moves the counter to its k-th successor. */
  lemma {:induction false} AddedNumbersCountUp(kind: Kind, l: OfferingList, ops: seq<ListOp>)
    ensures forall i :: 0 <= i < |AddedNumbers(kind, l, ops)| ==>
      AddedNumbers(kind, l, ops)[i] == l.counter + 1 + i
    decreases |ops|
  {
    if |ops| > 0 {
      var next := Apply(kind, l, ops[0]);
      var rest := AddedNumbers(kind, next, ops[1..]);
      AddedNumbersCountUp(kind, next, ops[1..]);
      if ops[0].AddOp? {
        assert next.counter == l.counter + 1;
        var a := [next.counter] + rest;
        assert AddedNumbers(kind, l, ops) == a;
        forall i | 0 <= i < |a|
          ensures a[i] == l.counter + 1 + i
        {
          if i > 0 {
            assert a[i] == rest[i - 1];
          }
        }
      } else {
        assert next.counter == l.counter;
      }
    }
  }

  /** Prefixing a matching name and number keeps names and numbers matched pointwise. */
  lemma PrependMatchingName(kind: Kind, x: string, n: nat, g: seq<string>, a: seq<nat>)
    requires |g| == |a| && forall i :: 0 <= i < |g| ==> g[i] == DefaultName(kind, a[i])
    requires x == DefaultName(kind, n)
    ensures |[x] + g| == |[n] + a|
    ensures forall i :: 0 <= i < |[x] + g| ==> ([x] + g)[i] == DefaultName(kind, ([n] + a)[i])
  {
    forall i | 0 <= i < |[x] + g|
      ensures ([x] + g)[i] == DefaultName(kind, ([n] + a)[i])
    {
      if i > 0 {
        assert ([x] + g)[i] == g[i - 1] && ([n] + a)[i] == a[i - 1];
      }
    }
  }

  /** The entry appended by each add is named after the counter value that add leaves behind. */
  lemma {:induction false} GeneratedNamesFollowCounter(kind: Kind, l: OfferingList, ops: seq<ListOp>)
    ensures |GeneratedNames(kind, l, ops)| == |AddedNumbers(kind, l, ops)|
    ensures forall i :: 0 <= i < |GeneratedNames(kind, l, ops)| ==>
      GeneratedNames(kind, l, ops)[i] == DefaultName(kind, AddedNumbers(kind, l, ops)[i])
    decreases |ops|
  {
    if |ops| > 0 {
      var next := Apply(kind, l, ops[0]);
      var g, a := GeneratedNames(kind, next, ops[1..]), AddedNumbers(kind, next, ops[1..]);
      GeneratedNamesFollowCounter(kind, next, ops[1..]);
      if ops[0].AddOp? {
        assert next == Add(kind, l, ops[0].id);
        PrependMatchingName(kind, next.items[|l.items|].name, next.counter, g, a);
      } else {
        assert GeneratedNames(kind, l, ops) == g && AddedNumbers(kind, l, ops) == a;
      }
    }
  }

  /** Names taken from consecutive counter values above `c` are pairwise distinct. */
  lemma NamesAboveCounterDistinct(kind: Kind, c: nat, g: seq<string>)
    requires forall i :: 0 <= i < |g| ==> g[i] == DefaultName(kind, c + 1 + i)
    ensures forall i, j :: 0 <= i < j < |g| ==> g[i] != g[j]
  {
    forall i, j | 0 <= i < j < |g|
      ensures g[i] != g[j]
    {
      DefaultNameInjective(kind, c + 1 + i, kind, c + 1 + j);
    }
  }

  /** Names taken from counter values above a valid list's counter are not in the list. */
  lemma NamesAboveCounterFresh(kind: Kind, l: OfferingList, g: seq<string>)
    requires Valid(kind, l)
    requires forall i :: 0 <= i < |g| ==> g[i] == DefaultName(kind, l.counter + 1 + i)
    ensures forall i, k :: 0 <= i < |g| && 0 <= k < |l.items| ==> g[i] != l.items[k].name
  {
    forall i, k | 0 <= i < |g| && 0 <= k < |l.items|
      ensures g[i] != l.items[k].name
    {
      assert Issued(kind, l.items[k].name, l.counter);
      var m :| 1 <= m <= l.counter && l.items[k].name == DefaultName(kind, m);
      DefaultNameInjective(kind, m, kind, l.counter + 1 + i);
    }
  }

  /**
    No default name is ever handed out twice in a session, whatever is removed
    in between, and none repeats a name already in a valid list.
   */
  lemma GeneratedNamesNeverRepeat(kind: Kind, l: OfferingList, ops: seq<ListOp>)
    requires Valid(kind, l)
    ensures var g := GeneratedNames(kind, l, ops);
      && (forall i, j :: 0 <= i < j < |g| ==> g[i] != g[j])
      && (forall i, k :: 0 <= i < |g| && 0 <= k < |l.items| ==> g[i] != l.items[k].name)
  {
    var g := GeneratedNames(kind, l, ops);
    var numbers := AddedNumbers(kind, l, ops);
    GeneratedNamesFollowCounter(kind, l, ops);
    AddedNumbersCountUp(kind, l, ops);
    forall i | 0 <= i < |g|
      ensures g[i] == DefaultName(kind, l.counter + 1 + i)
    {
      assert g[i] == DefaultName(kind, numbers[i]);
    }
    NamesAboveCounterDistinct(kind, l.counter, g);
    NamesAboveCounterFresh(kind, l, g);
  }

  /** Every id an add uses is absent from the list it is added to. */
  ghost predicate FreshIdsAlong(kind: Kind, l: OfferingList, ops: seq<ListOp>)
    decreases |ops|
  {
    |ops| == 0 ||
    ((ops[0].AddOp? ==> IdAbsent(l.items, ops[0].id)) && FreshIdsAlong(kind, Apply(kind, l, ops[0]), ops[1..]))
  }

  lemma ApplyPreservesValid(kind: Kind, l: OfferingList, op: ListOp)
    requires Valid(kind, l) && DistinctIds(l.items) && |l.items| >= 1
    requires op.AddOp? ==> IdAbsent(l.items, op.id)
    ensures var r := Apply(kind, l, op);
      Valid(kind, r) && DistinctIds(r.items) && |r.items| >= 1
  {
    match op
    case AddOp(id) =>
      AddPreservesValid(kind, l, id);
      AddPreservesDistinctIds(kind, l, id);
    case RemoveOp(id) =>
      RemovePreservesValid(kind, l, id);
      RemoveKeepsOne(l, id);
    case SetPriceOp(id, price) =>
      UpdatePricePreservesValid(kind, l, id, price);
  }

  /**
    Over a whole session with fresh clock readings, names stay issued and
    distinct, ids stay distinct, and the list never drops below one entry.
   */
  lemma {:induction false} RunPreservesValid(kind: Kind, l: OfferingList, ops: seq<ListOp>)
    requires Valid(kind, l) && DistinctIds(l.items) && |l.items| >= 1
    requires FreshIdsAlong(kind, l, ops)
    ensures var r := Run(kind, l, ops);
      Valid(kind, r) && DistinctIds(r.items) && |r.items| >= 1
    decreases |ops|
  {
    if |ops| > 0 {
      ApplyPreservesValid(kind, l, ops[0]);
      RunPreservesValid(kind, Apply(kind, l, ops[0]), ops[1..]);
    }
  }
}
