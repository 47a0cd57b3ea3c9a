/**
 * The command-name registries (`MESSAGES`) of both protocols, and the two
 * searches over them: `hexForKey` finds the id stored under a name and
 * `keyForHex` finds the name stored with an id.
 *
 * A registry is a `std::map` from name to id, so the C++ loops walk its
 * entries in ascending name order and return at the first match. A table
 * here is the sequence of entries in that iteration order, and both
 * searches are stated as "the first matching entry, or the default".
 */
module Registry {

  /** One map entry: a command name and its message id. */
  datatype Entry<Id> = Entry(name: string, id: Id)

  /** What `keyForHex` returns for an id no entry carries. */
  const UnknownCommand: string := "UNKNOWN_COMMAND"

  /** No two entries share a name (a `std::map` has unique keys). */
  ghost predicate NamesDistinct<Id>(t: seq<Entry<Id>>) {
    forall i, j :: 0 <= i < j < |t| ==> t[i].name != t[j].name
  }

  /** No two entries share an id. */
  ghost predicate IdsDistinct<Id>(t: seq<Entry<Id>>) {
    forall i, j :: 0 <= i < j < |t| ==> t[i].id != t[j].id
  }

  /** Some entry of `t` is named `key`. */
  ghost predicate HasName<Id>(t: seq<Entry<Id>>, key: string) {
    exists i :: 0 <= i < |t| && t[i].name == key
  }

  /** Some entry of `t` carries `id`. */
  ghost predicate HasId<Id>(t: seq<Entry<Id>>, id: Id) {
    exists i :: 0 <= i < |t| && t[i].id == id
  }

  /** Entry `i` is the first one the iteration meets that is named `key`. */
  ghost predicate FirstNamed<Id>(t: seq<Entry<Id>>, key: string, i: int) {
    0 <= i < |t| && t[i].name == key && forall j :: 0 <= j < i ==> t[j].name != key
  }

  /** Entry `i` is the first one the iteration meets that carries `id`. */
  ghost predicate FirstWithId<Id>(t: seq<Entry<Id>>, id: Id, i: int) {
    0 <= i < |t| && t[i].id == id && forall j :: 0 <= j < i ==> t[j].id != id
  }

  /**
   * `hexForKey`: the loop over the entries that returns the id of the
   * first one named `key`, and `none` after the last entry.
   */
  function IdForName<Id>(t: seq<Entry<Id>>, key: string, none: Id): Id
    decreases |t|
  {
    if t == [] then none
    else if t[0].name == key then t[0].id
    else IdForName(t[1..], key, none)
  }

  /**
   * `keyForHex`: the loop over the entries that returns the name of the
   * first one carrying `id`, and `unknown` after the last entry.
   */
  function NameForId<Id(==)>(t: seq<Entry<Id>>, id: Id, unknown: string): string
    decreases |t|
  {
    if t == [] then unknown
    else if t[0].id == id then t[0].name
    else NameForId(t[1..], id, unknown)
  }

  /** The search by name returns the id of the first entry named `key`, or `none` if there is none. */
  lemma {:induction false} IdForNameFinds<Id>(t: seq<Entry<Id>>, key: string, none: Id)
    ensures HasName(t, key) ==> exists i :: FirstNamed(t, key, i) && IdForName(t, key, none) == t[i].id
    ensures !HasName(t, key) ==> IdForName(t, key, none) == none
    decreases |t|
  {
    if t == [] {
    } else if t[0].name == key {
      assert FirstNamed(t, key, 0);
    } else {
      IdForNameFinds(t[1..], key, none);
      var r := IdForName(t[1..], key, none);
      if HasName(t, key) {
        var i :| 0 <= i < |t| && t[i].name == key;
        assert t[1..][i - 1].name == key;
        var k :| FirstNamed(t[1..], key, k) && r == t[1..][k].id;
        assert FirstNamed(t, key, k + 1);
      }
    }
  }

  /** The search by id returns the name of the first entry carrying `id`, or `unknown` if there is none. */
  lemma {:induction false} NameForIdFinds<Id>(t: seq<Entry<Id>>, id: Id, unknown: string)
    ensures HasId(t, id) ==> exists i :: FirstWithId(t, id, i) && NameForId(t, id, unknown) == t[i].name
    ensures !HasId(t, id) ==> NameForId(t, id, unknown) == unknown
    decreases |t|
  {
    if t == [] {
    } else if t[0].id == id {
      assert FirstWithId(t, id, 0);
    } else {
      NameForIdFinds(t[1..], id, unknown);
      var r := NameForId(t[1..], id, unknown);
      if HasId(t, id) {
        var i :| 0 <= i < |t| && t[i].id == id;
        assert t[1..][i - 1].id == id;
        var k :| FirstWithId(t[1..], id, k) && r == t[1..][k].name;
        assert FirstWithId(t, id, k + 1);
      }
    }
  }

  /** The search by name returns the id of the entry it meets first under that name. */
  lemma IdForNameFirst<Id>(t: seq<Entry<Id>>, key: string, none: Id, i: int)
    requires FirstNamed(t, key, i)
    ensures IdForName(t, key, none) == t[i].id
  {
    IdForNameFinds(t, key, none);
    var r := IdForName(t, key, none);
    var k :| FirstNamed(t, key, k) && r == t[k].id;
    assert t[k].name == t[i].name;
  }

  /** The search by id returns the name of the entry it meets first with that id. */
  lemma NameForIdFirst<Id>(t: seq<Entry<Id>>, id: Id, unknown: string, i: int)
    requires FirstWithId(t, id, i)
    ensures NameForId(t, id, unknown) == t[i].name
  {
    NameForIdFinds(t, id, unknown);
    var r := NameForId(t, id, unknown);
    var k :| FirstWithId(t, id, k) && r == t[k].name;
    assert t[k].id == t[i].id;
  }

  /** In a table with unique names, the search by name finds entry `i` itself. */
  lemma IdForNameAt<Id>(t: seq<Entry<Id>>, i: int, none: Id)
    requires NamesDistinct(t)
    requires 0 <= i < |t|
    ensures IdForName(t, t[i].name, none) == t[i].id
  {
    IdForNameFirst(t, t[i].name, none, i);
  }

  /** In a table with unique ids, the search by id finds entry `i` itself. */
  lemma NameForIdAt<Id>(t: seq<Entry<Id>>, i: int, unknown: string)
    requires IdsDistinct(t)
    requires 0 <= i < |t|
    ensures NameForId(t, t[i].id, unknown) == t[i].name
  {
    NameForIdFirst(t, t[i].id, unknown, i);
  }

  /**
   * With unique ids, looking a table name up and searching back by the id
   * found gives the name again.
   */
  lemma NameForIdOfIdForName<Id>(t: seq<Entry<Id>>, key: string, none: Id, unknown: string)
    requires IdsDistinct(t)
    requires HasName(t, key)
    ensures NameForId(t, IdForName(t, key, none), unknown) == key
  {
    IdForNameFinds(t, key, none);
    var r := IdForName(t, key, none);
    var i :| FirstNamed(t, key, i) && r == t[i].id;
    NameForIdAt(t, i, unknown);
  }

  /**
   * With unique names, searching a table id by id and looking the name
   * found up again gives the id again.
   */
  lemma IdForNameOfNameForId<Id>(t: seq<Entry<Id>>, id: Id, none: Id, unknown: string)
    requires NamesDistinct(t)
    requires HasId(t, id)
    ensures IdForName(t, NameForId(t, id, unknown), none) == id
  {
    NameForIdFinds(t, id, unknown);
    var r := NameForId(t, id, unknown);
    var i :| FirstWithId(t, id, i) && r == t[i].name;
    IdForNameAt(t, i, none);
  }

  /**
   * When the default id `none` belongs to no entry, the search by name
   * returns `none` exactly for the names that are not in the table.
   */
  lemma IdForNameIsNoneIff<Id>(t: seq<Entry<Id>>, key: string, none: Id)
    requires !HasId(t, none)
    ensures IdForName(t, key, none) == none <==> !HasName(t, key)
  {
    IdForNameFinds(t, key, none);
    var r := IdForName(t, key, none);
    if HasName(t, key) {
      var i :| FirstNamed(t, key, i) && r == t[i].id;
      assert t[i].id != none;
    }
  }
}
