/** `Inventories.Item`: an immutable handle with a name, a size and an id
    taken from a process-wide counter. Equality and hashing go by id only. */
module Items {
  import opened Wrappers
  import opened Vectors

  /** The static `ID_GEN` counter, made an explicit object that the item
      constructors advance. It starts at C#'s default value 0. */
  class IdGenerator {
    var next: int

    constructor ()
      ensures next == 0
    {
      next := 0;
    }
  }

  /** A reference as `Equals(object)` sees it: null, an `Item`, or an object
      of some other runtime type. */
  datatype Obj = NullRef | ItemRef(item: Item) | OtherRef

  class Item {
    const id: int
    /** `None` stands for a null name. */
    const name: Option<string>
    /** Stored without validation: zero and negative dimensions are kept. */
    const size: Vec

    /** `Item(string name, Vector2Int size)` and `Item(string name, int width,
        int height)`: the name is stored as given, null included. */
    constructor Named(gen: IdGenerator, name: Option<string>, size: Vec)
      modifies gen
      ensures id == old(gen.next) && gen.next == old(gen.next) + 1
      ensures this.name == name && this.size == size
    {
      id := gen.next;
      this.name := name;
      this.size := size;
      new;
      gen.next := gen.next + 1;
    }

    /** `Item(Vector2Int size)` and `Item(int width, int height)`: the name is
        the empty string. */
    constructor Unnamed(gen: IdGenerator, size: Vec)
      modifies gen
      ensures id == old(gen.next) && gen.next == old(gen.next) + 1
      ensures name == Some("") && this.size == size
    {
      id := gen.next;
      name := Some("");
      this.size := size;
      new;
      gen.next := gen.next + 1;
    }

    /** `Equals(Item other)`. */
    function EqualsItem(other: Item): (r: bool)
      ensures r <==> GetHashCode() == other.GetHashCode()
    {
      id == other.id
    }

    /** `Equals(object obj)`: false for null and for other runtime types, true
        for the same reference, otherwise a comparison of ids. */
    function Equals(obj: Obj): (r: bool)
      ensures r <==> obj.ItemRef? && obj.item.id == id
      ensures obj == ItemRef(this) ==> r
    {
      match obj
      case NullRef => false
      case OtherRef => false
      case ItemRef(other) => other == this || EqualsItem(other)
    }

    /** `GetHashCode()`: the id. */
    function GetHashCode(): int {
      id
    }
  }

  /** Equal items hash equally. */
  lemma EqualItemsHashEqually(a: Item, b: Item)
    ensures a.Equals(ItemRef(b)) ==> a.GetHashCode() == b.GetHashCode()
  {
  }

  /** `Equals` on items is an equivalence relation. */
  lemma EqualsIsEquivalence(a: Item, b: Item, c: Item)
    ensures a.Equals(ItemRef(a))
    ensures a.Equals(ItemRef(b)) <==> b.Equals(ItemRef(a))
    ensures a.Equals(ItemRef(b)) && b.Equals(ItemRef(c)) ==> a.Equals(ItemRef(c))
  {
  }

  /** Two items built one after the other from the same counter are never
      Equal, even with the same name and size. */
  method BuildTwo(gen: IdGenerator, name: Option<string>, size: Vec) returns (a: Item, b: Item)
    modifies gen
    ensures a.name == b.name == name && a.size == b.size == size
    ensures !a.Equals(ItemRef(b)) && !b.Equals(ItemRef(a))
    ensures gen.next == old(gen.next) + 2
  {
    a := new Item.Named(gen, name, size);
    b := new Item.Named(gen, name, size);
  }

  /** An upper-case mapping for the ASCII letters; other characters map to
      themselves. */
  function UpperAscii(c: char): (u: char)
    ensures 'a' <= c <= 'z' ==> u == c - 'a' + 'A'
    ensures !('a' <= c <= 'z') ==> u == c
  {
    if 'a' <= c <= 'z' then c - 'a' + 'A' else c
  }

  /** `string.Equals(a, b, StringComparison.OrdinalIgnoreCase)`, restricted
      to ASCII case folding. */
  predicate EqualsIgnoreCase(a: string, b: string) {
    |a| == |b| && forall i :: 0 <= i < |a| ==> UpperAscii(a[i]) == UpperAscii(b[i])
  }

  lemma EqualsIgnoreCaseIsEquivalence(a: string, b: string, c: string)
    ensures EqualsIgnoreCase(a, a)
    ensures EqualsIgnoreCase(a, b) ==> EqualsIgnoreCase(b, a)
    ensures EqualsIgnoreCase(a, b) && EqualsIgnoreCase(b, c) ==> EqualsIgnoreCase(a, c)
  {
  }

  /** The name test of `GetItemCount`: a null item name throws; a null
      argument matches nothing. */
  function NameMatches(itemName: Option<string>, name: Option<string>): (r: Result<bool>)
    ensures r.Err? <==> itemName.None?
    ensures r == Ok(true) <==> itemName.Some? && name.Some? && EqualsIgnoreCase(itemName.value, name.value)
  {
    match itemName
    case None => Err(NullReference)
    case Some(s) => Ok(name.Some? && EqualsIgnoreCase(s, name.value))
  }
}
