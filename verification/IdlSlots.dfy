/** An Anchor IDL's account slots (crates/solinv-static/src/idl.rs), flattened to dotted paths. */
module IdlSlots {
  import opened Common

  datatype Seed =
    | Const(value: seq<byte>)
    | Account(path: string, account: Option<string>)
    | Arg(path: string)

  datatype Pda = Pda(seeds: seq<Seed>, program: Option<Seed>)

  datatype Acct = Acct(
    name: string, writable: bool, signer: bool, optional: bool,
    address: Option<string>, pda: Option<Pda>, relations: seq<string>)

  /** One entry of an account list; a composite is a nested struct. */
  datatype Item = Composite(name: string, accounts: seq<Item>) | Single(a: Acct)

  datatype Ix = Ix(name: string, accounts: seq<Item>, args: seq<string>)

  datatype Idl = Idl(instructions: seq<Ix>, legacy: bool)

  /** One slot of a flattened list. */
  datatype Slot = Slot(path: string, a: Acct)

  function Join(prefix: seq<string>): string {
    if prefix == [] then "" else if |prefix| == 1 then prefix[0] else prefix[0] + "." + Join(prefix[1..])
  }

  function PathOf(prefix: seq<string>, name: string): string {
    if Join(prefix) == "" then name else Join(prefix) + "." + name
  }

  /** The slots of a list inside the composites `prefix`. */
  function FlatItems(items: seq<Item>, prefix: seq<string>): seq<Slot> {
    if items == [] then []
    else FlatItem(items[0], prefix) + FlatItems(items[1..], prefix)
  }

  function FlatItem(item: Item, prefix: seq<string>): seq<Slot> {
    match item
    case Single(a) => [Slot(PathOf(prefix, a.name), a)]
    case Composite(name, accounts) => FlatItems(accounts, prefix + [name])
  }

  function Flat(ix: Ix): seq<Slot> { FlatItems(ix.accounts, []) }

  /** The walk: a composite's name is pushed on the one prefix, and popped after it. */
  method Walk(items: seq<Item>, prefix: seq<string>, out: seq<Slot>) returns (prefix': seq<string>, out': seq<Slot>)
    ensures prefix' == prefix && out' == out + FlatItems(items, prefix)
    decreases items
  {
    prefix', out' := prefix, out;
    for i := 0 to |items|
      invariant prefix' == prefix && out' + FlatItems(items[i..], prefix) == out + FlatItems(items, prefix)
    {
      assert items[i..][0] == items[i] && items[i..][1..] == items[i + 1..];
      ghost var before, rest := out', FlatItems(items[i + 1..], prefix);
      match items[i] {
        case Single(a) => out' := out' + [Slot(PathOf(prefix', a.name), a)];
        case Composite(name, accounts) =>
          prefix' := prefix' + [name];
          prefix', out' := Walk(accounts, prefix', out');
          prefix' := prefix'[..|prefix'| - 1];
      }
      assert out' == before + FlatItem(items[i], prefix);
      assert before + (FlatItem(items[i], prefix) + rest) == out' + rest;
    }
  }

  method FlatAccounts(ix: Ix) returns (slots: seq<Slot>)
    ensures slots == Flat(ix)
  {
    var prefix;
    prefix, slots := Walk(ix.accounts, [], []);
  }

  predicate IsSilent(a: Acct) { !a.signer && a.pda.None? && a.address.None? }

  /** No slot signs, and one the IDL leaves unchecked is written. */
  predicate UnsignedWriter(slots: seq<Slot>) {
    && (forall i :: 0 <= i < |slots| ==> !slots[i].a.signer)
    && (exists i :: 0 <= i < |slots| && slots[i].a.writable && IsSilent(slots[i].a))
  }

  ghost predicate UniquePaths(slots: seq<Slot>) {
    forall i, j :: 0 <= i < j < |slots| ==> slots[i].path != slots[j].path
  }

  function Signers(slots: seq<Slot>): nat {
    if slots == [] then 0 else (if slots[0].a.signer then 1 else 0) + Signers(slots[1..])
  }

  /** `rsplit_once('.')`: where the last dot is. */
  function LastDot(path: string): (r: Option<nat>)
    ensures r.Some? ==> r.value < |path|
  {
    if path == "" then None
    else if path[|path| - 1] == '.' then Some(|path| - 1)
    else LastDot(path[..|path| - 1])
  }

  function PrefixOf(path: string): string {
    match LastDot(path) case Some(i) => path[..i] case None => ""
  }

  function LeafOf(path: string): string {
    match LastDot(path) case Some(i) => path[i + 1..] case None => path
  }

  /** `split_once('.')`: where the first dot is. */
  function FirstDot(s: string): (r: Option<nat>)
    ensures r.Some? ==> r.value < |s| && s[r.value] == '.'
  {
    if s == "" then None
    else if s[0] == '.' then Some(0)
    else match FirstDot(s[1..]) case Some(i) => Some(i + 1) case None => None
  }

  /** The path of the slot `name` of the composite `prefix`. */
  function In(prefix: string, name: string): string { if prefix == "" then name else prefix + "." + name }

  /** The first segment of a dotted path. */
  function FirstSegment(path: string): string {
    match FirstDot(path) case Some(i) => path[..i] case None => path
  }

  /** What follows the first segment. */
  function AfterFirst(path: string): Option<string> {
    match FirstDot(path) case Some(i) => Some(path[i + 1..]) case None => None
  }

  lemma {:induction false} NoLastDot(name: string)
    requires '.' !in name
    ensures LastDot(name) == None
  {
    if name != "" { NoLastDot(name[..|name| - 1]); }
  }

  lemma {:induction false} LastDotIn(prefix: string, name: string)
    requires '.' !in name
    ensures LastDot(prefix + "." + name) == Some(|prefix|)
  {
    var path := prefix + "." + name;
    if name == "" {
      assert path == prefix + ".";
    } else {
      assert path[|path| - 1] == name[|name| - 1];
      assert path[..|path| - 1] == prefix + "." + name[..|name| - 1];
      LastDotIn(prefix, name[..|name| - 1]);
    }
  }

  /** A slot's path tells its composite and its name. */
  lemma PathParts(prefix: string, name: string)
    requires '.' !in name
    ensures PrefixOf(In(prefix, name)) == prefix && LeafOf(In(prefix, name)) == name
  {
    if prefix == "" {
      NoLastDot(name);
    } else {
      LastDotIn(prefix, name);
      assert (prefix + "." + name)[|prefix| + 1..] == name;
    }
  }

  lemma {:induction false} LeafPlain(path: string)
    ensures '.' !in LeafOf(path)
  {
    if path != "" && path[|path| - 1] != '.' {
      var init := path[..|path| - 1];
      LeafPlain(init);
      assert LeafOf(path) == LeafOf(init) + [path[|path| - 1]];
    }
  }

  lemma {:induction false} FirstSegmentPlain(path: string)
    ensures '.' !in FirstSegment(path)
  {
    if path != "" && path[0] != '.' {
      FirstSegmentPlain(path[1..]);
      assert FirstSegment(path) == [path[0]] + FirstSegment(path[1..]);
    }
  }

  lemma {:induction false} FirstDotAt(name: string, rest: string)
    requires '.' !in name
    ensures FirstDot(name) == None && FirstDot(name + "." + rest) == Some(|name|)
  {
    if name == "" {
      assert ("" + "." + rest)[0] == '.';
    } else {
      FirstDotAt(name[1..], rest);
      assert (name + "." + rest)[1..] == name[1..] + "." + rest;
    }
  }

  /** A path is its first segment and what follows. */
  lemma PathAgain(x: string, y: string)
    requires FirstSegment(x) == FirstSegment(y) && AfterFirst(x) == AfterFirst(y)
    ensures x == y
  {
    if FirstDot(x).Some? {
      assert x == FirstSegment(x) + "." + AfterFirst(x).value;
      assert y == FirstSegment(y) + "." + AfterFirst(y).value;
    }
  }

  /** A slot one composite further in has that composite's name before its own. */
  lemma {:induction false} NestedPath(prefix: seq<string>, composite: string, name: string)
    requires composite != "" && forall i :: 0 <= i < |prefix| ==> prefix[i] != ""
    ensures PathOf(prefix + [composite], name) == PathOf(prefix, composite) + "." + name
  {
    JoinMore(prefix, composite);
    JoinSomething(prefix);
  }

  lemma {:induction false} JoinSomething(prefix: seq<string>)
    requires forall i :: 0 <= i < |prefix| ==> prefix[i] != ""
    ensures Join(prefix) == "" <==> prefix == []
  {
    if prefix != [] { assert prefix[0] != ""; }
  }

  lemma {:induction false} JoinMore(prefix: seq<string>, name: string)
    ensures Join(prefix + [name]) == if prefix == [] then name else Join(prefix) + "." + name
  {
    if |prefix| > 0 {
      assert (prefix + [name])[1..] == prefix[1..] + [name];
      JoinMore(prefix[1..], name);
      assert prefix[0] + "." + (Join(prefix[1..]) + "." + name) == (prefix[0] + "." + Join(prefix[1..])) + "." + name;
    }
  }
}
