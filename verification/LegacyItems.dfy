/** Reading a legacy account list: a `has_one` is declared on one slot and recorded on the slot it
    names (crates/solinv-static/src/legacy.rs). Case conversion is a parameter; derived addresses
    are carried elsewhere. */
module LegacyItems {
  import opened Common

  datatype Account = Account(name: string, writable: bool, signer: bool, optional: bool, relations: seq<string>)

  /** In a legacy list `relations` are the slots an account names; read, the slots that name it. */
  datatype Item = Single(account: Account) | Composite(name: string, accounts: seq<Item>)

  /** A slot and the slots it names. */
  datatype Declaration = Declaration(declarer: string, targets: seq<string>)

  type Case = string -> string

  function Cased(snake: Case, names: seq<string>): (r: seq<string>)
    ensures |r| == |names| && forall k :: 0 <= k < |names| ==> r[k] == snake(names[k])
  {
    if names == [] then [] else Cased(snake, names[..|names| - 1]) + [snake(names[|names| - 1])]
  }

  function Declared(snake: Case, list: seq<Item>): seq<Declaration> {
    if list == [] then []
    else
      var before := Declared(snake, list[..|list| - 1]);
      match list[|list| - 1]
      case Single(a) => before + [Declaration(snake(a.name), Cased(snake, a.relations))]
      case Composite(_, _) => before
  }

  /** Who declares `name`, in order. */
  function DeclaredBy(declared: seq<Declaration>, name: string): seq<string> {
    if declared == [] then []
    else
      var before, d := DeclaredBy(declared[..|declared| - 1], name), declared[|declared| - 1];
      if name in d.targets then before + [d.declarer] else before
  }

  /** An item converted, its relations not yet set. */
  function Converted(snake: Case, i: Item): Item
    decreases i
  {
    match i
    case Single(a) => Single(Account(snake(a.name), a.writable, a.signer, a.optional, []))
    case Composite(name, accounts) => Composite(snake(name), ItemsOf(snake, accounts))
  }

  function ConvertedAll(snake: Case, list: seq<Item>, n: nat): (r: seq<Item>)
    requires n <= |list|
    ensures |r| == n
    decreases list, 0, n
  {
    if n == 0 then [] else ConvertedAll(snake, list, n - 1) + [Converted(snake, list[n - 1])]
  }

  function Related(declared: seq<Declaration>, i: Item): Item {
    match i
    case Single(a) => Single(a.(relations := DeclaredBy(declared, a.name)))
    case Composite(_, _) => i
  }

  function RelatedAll(declared: seq<Declaration>, items: seq<Item>): (r: seq<Item>)
    ensures |r| == |items| && forall k :: 0 <= k < |items| ==> r[k] == Related(declared, items[k])
  {
    seq(|items|, k requires 0 <= k < |items| => Related(declared, items[k]))
  }

  function ItemsOf(snake: Case, list: seq<Item>): seq<Item>
    decreases list, 1
  {
    RelatedAll(Declared(snake, list), ConvertedAll(snake, list, |list|))
  }

  method Declarers(declared: seq<Declaration>, name: string) returns (r: seq<string>)
    ensures r == DeclaredBy(declared, name)
  {
    r := [];
    for k := 0 to |declared|
      invariant r == DeclaredBy(declared[..k], name)
    {
      assert declared[..k + 1][..k] == declared[..k];
      if name in declared[k].targets {
        r := r + [declared[k].declarer];
      }
    }
    assert declared[..|declared|] == declared;
  }

  /** One struct level: convert each item, then move each `has_one` to the sibling it names. */
  method Items(snake: Case, list: seq<Item>) returns (out: seq<Item>)
    ensures out == ItemsOf(snake, list)
    decreases list
  {
    var declared: seq<Declaration> := [];
    out := [];
    for k := 0 to |list|
      invariant declared == Declared(snake, list[..k]) && out == ConvertedAll(snake, list, k)
    {
      assert list[..k + 1][..k] == list[..k];
      match list[k] {
        case Single(a) =>
          declared := declared + [Declaration(snake(a.name), Cased(snake, a.relations))];
          out := out + [Single(Account(snake(a.name), a.writable, a.signer, a.optional, []))];
        case Composite(name, accounts) =>
          var inner := Items(snake, accounts);
          out := out + [Composite(snake(name), inner)];
      }
    }
    assert list[..|list|] == list;
    ghost var converted := out;
    for k := 0 to |out|
      invariant |out| == |converted| && forall m :: k <= m < |out| ==> out[m] == converted[m]
      invariant forall m :: 0 <= m < k ==> out[m] == Related(declared, converted[m])
    {
      if out[k].Single? {
        var declarer := Declarers(declared, out[k].account.name);
        out := out[k := Single(out[k].account.(relations := declarer))];
      }
    }
    assert out == RelatedAll(declared, converted);
  }

  lemma {:induction false} DeclaredByHas(declared: seq<Declaration>, name: string, declarer: string)
    ensures declarer in DeclaredBy(declared, name) <==>
            exists k :: 0 <= k < |declared| && declared[k].declarer == declarer && name in declared[k].targets
  {
    if declared != [] {
      var n := |declared| - 1;
      DeclaredByHas(declared[..n], name, declarer);
      assert forall k :: 0 <= k < n ==> declared[..n][k] == declared[k];
    }
  }

  /** Slot `i` of a list declares a `has_one` that reads as `name`. */
  predicate Names(snake: Case, i: Item, declarer: string, name: string) {
    i.Single? && snake(i.account.name) == declarer && name in Cased(snake, i.account.relations)
  }

  lemma {:induction false} DeclaredHas(snake: Case, list: seq<Item>, declarer: string, name: string)
    ensures (exists k :: 0 <= k < |Declared(snake, list)| && Declared(snake, list)[k].declarer == declarer &&
                name in Declared(snake, list)[k].targets)
            <==> exists i :: 0 <= i < |list| && Names(snake, list[i], declarer, name)
  {
    if list != [] {
      var n := |list| - 1;
      var before, all := Declared(snake, list[..n]), Declared(snake, list);
      DeclaredHas(snake, list[..n], declarer, name);
      assert forall i :: 0 <= i < n ==> list[..n][i] == list[i];
      assert forall k :: 0 <= k < |before| ==> all[k] == before[k];
      if list[n].Single? {
        assert |all| == |before| + 1 && all[|before|] == Declaration(snake(list[n].account.name),
            Cased(snake, list[n].account.relations));
      } else {
        assert all == before;
      }
    }
  }

  lemma {:induction false} ConvertedAt(snake: Case, list: seq<Item>, n: nat, j: nat)
    requires j < n <= |list|
    ensures ConvertedAll(snake, list, n)[j] == Converted(snake, list[j])
  {
    if j < n - 1 { ConvertedAt(snake, list, n - 1, j); }
  }

  /** Slots keep their places and flags, and the relation is inverted: a slot is recorded on `j`
      exactly when it declares the name of `j`. */
  lemma RelationInverted(snake: Case, list: seq<Item>, j: nat, declarer: string)
    requires j < |list| && list[j].Single?
    ensures |ItemsOf(snake, list)| == |list|
    ensures var a, b := list[j].account, ItemsOf(snake, list)[j];
            && b.Single? && b.account.(relations := []) == Account(snake(a.name), a.writable, a.signer, a.optional, [])
            && (declarer in b.account.relations <==>
                  exists i :: 0 <= i < |list| && Names(snake, list[i], declarer, snake(a.name)))
  {
    ConvertedAt(snake, list, |list|, j);
    DeclaredByHas(Declared(snake, list), snake(list[j].account.name), declarer);
    DeclaredHas(snake, list, declarer, snake(list[j].account.name));
  }

  /** A composite keeps its place and is converted as a list of its own. */
  lemma CompositeConverted(snake: Case, list: seq<Item>, j: nat)
    requires j < |list| && list[j].Composite?
    ensures |ItemsOf(snake, list)| == |list|
    ensures ItemsOf(snake, list)[j] == Composite(snake(list[j].name), ItemsOf(snake, list[j].accounts))
  {
    ConvertedAt(snake, list, |list|, j);
  }

  /** Declarers are recorded in the order of the list: a slot added at its end comes last, and only
      where it declares. */
  lemma DeclaredInOrder(snake: Case, list: seq<Item>, last: Account, j: nat)
    requires j < |list| && list[j].Single?
    ensures var more, before := ItemsOf(snake, list + [Single(last)]), ItemsOf(snake, list);
            && |more| == |before| + 1 && |before| == |list| && more[j].Single? && before[j].Single?
            && more[j].account.relations == before[j].account.relations
               + (if snake(list[j].account.name) in Cased(snake, last.relations) then [snake(last.name)] else [])
  {
    var all := list + [Single(last)];
    ConvertedAt(snake, list, |list|, j);
    ConvertedAt(snake, all, |all|, j);
    assert all[..|all| - 1] == list;
    var declared, name := Declared(snake, list), snake(list[j].account.name);
    assert Declared(snake, all)[..|Declared(snake, all)| - 1] == declared;
    assert DeclaredBy(Declared(snake, all), name) == DeclaredBy(declared, name)
        + (if name in Cased(snake, last.relations) then [snake(last.name)] else []);
  }

  /** A `has_one` is kept exactly when a slot of the same level has the name it gives: one that
      names a slot inside a composite is dropped. */
  lemma HasOneKeptExactly(snake: Case, list: seq<Item>, i: nat, target: string)
    requires i < |list| && list[i].Single? && target in list[i].account.relations
    ensures (exists j :: 0 <= j < |list| && Recorded(snake, list, j, snake(list[i].account.name), snake(target)))
            <==> exists j :: 0 <= j < |list| && list[j].Single? && snake(list[j].account.name) == snake(target)
  {
    var declarer := snake(list[i].account.name);
    var cased := Cased(snake, list[i].account.relations);
    var k :| 0 <= k < |list[i].account.relations| && list[i].account.relations[k] == target;
    assert cased[k] == snake(target);
    assert Names(snake, list[i], declarer, snake(target));
    forall j | 0 <= j < |list| && list[j].Single? && snake(list[j].account.name) == snake(target)
      ensures Recorded(snake, list, j, declarer, snake(target))
    {
      RelationInverted(snake, list, j, declarer);
    }
  }

  /** Slot `j`, read, is called `name` and records `declarer`. */
  predicate Recorded(snake: Case, list: seq<Item>, j: nat, declarer: string, name: string)
    requires j < |list|
  {
    list[j].Single? && snake(list[j].account.name) == name &&
    var b := ItemsOf(snake, list)[j]; b.Single? && declarer in b.account.relations
  }
}
