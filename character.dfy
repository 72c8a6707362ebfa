/**
 * The character store of models/character.ts: characters in a process-wide
 * JavaScript `Map` keyed by id. The map keeps its keys in insertion order, so
 * the store is modelled as that order plus the key/value map.
 */
module Characters {
  import opened Wrappers

  datatype Character = Character(id: int, name: string, lastName: string)

  /** The length rule `CharacterSchema` puts on both names. */
  const MinNameLength: nat := 6

  datatype CharacterIssue = NameTooShort | LastNameTooShort

  /** What `safeParse(CharacterSchema, body)` reports, in field order. */
  function CharacterSchemaIssues(name: string, lastName: string): seq<CharacterIssue>
  {
    (if |name| >= MinNameLength then [] else [NameTooShort])
    + (if |lastName| >= MinNameLength then [] else [LastNameTooShort])
  }

  /** The schema accepts exactly a name and a last name of at least six characters each. */
  lemma CharacterSchemaAccepts(name: string, lastName: string)
    ensures CharacterSchemaIssues(name, lastName) == [] <==> |name| >= 6 && |lastName| >= 6
    ensures NameTooShort in CharacterSchemaIssues(name, lastName) <==> |name| < 6
    ensures LastNameTooShort in CharacterSchemaIssues(name, lastName) <==> |lastName| < 6
  {
  }

  // ---------------------------------------------------------------- key order

  ghost predicate Distinct(s: seq<int>)
  {
    forall i, j :: 0 <= i < j < |s| ==> s[i] != s[j]
  }

  /** The order lists every key of the map once, and nothing else. */
  ghost predicate OrderMatches(order: seq<int>, m: map<int, Character>)
  {
    && Distinct(order)
    && (forall k :: k in m <==> k in order)
    && (forall i :: 0 <= i < |order| ==> order[i] in m)
  }

  /** `Map.set` keeps the position of a key already present and appends a new one. */
  function OrderAfterSet(order: seq<int>, m: map<int, Character>, k: int): seq<int>
  {
    if k in m then order else order + [k]
  }

  lemma OrderAfterSetMatches(order: seq<int>, m: map<int, Character>, k: int, v: Character)
    requires OrderMatches(order, m)
    ensures OrderMatches(OrderAfterSet(order, m, k), m[k := v])
  {
  }

  /** `Map.delete` drops the key and keeps the others in their order. */
  function OrderAfterDelete(order: seq<int>, k: int): (r: seq<int>)
    ensures forall x :: x in r <==> x in order && x != k
    ensures Distinct(order) ==> Distinct(r)
    ensures k !in order ==> r == order
    decreases |order|
  {
    if order == [] then []
    else
      var rest := OrderAfterDelete(order[1..], k);
      if order[0] == k then rest
      else
        assert Distinct(order) ==> order[0] !in order[1..];
        [order[0]] + rest
  }

  /** A sequence without repetitions has as many elements as its set. */
  lemma {:induction false} DistinctCardinality(s: seq<int>)
    requires Distinct(s)
    ensures |set x | x in s| == |s|
    decreases |s|
  {
    if s != [] {
      DistinctCardinality(s[1..]);
      assert (set x | x in s) == {s[0]} + (set x | x in s[1..]);
      assert s[0] !in s[1..] by {
        forall j | 0 <= j < |s[1..]| ensures s[1..][j] != s[0] {
          assert s[1..][j] == s[j + 1];
        }
      }
    }
  }

  /** An order that matches a map has one entry per key. */
  lemma OrderLength(order: seq<int>, m: map<int, Character>)
    requires OrderMatches(order, m)
    ensures |order| == |m|
  {
    DistinctCardinality(order);
    forall k ensures k in m.Keys <==> k in (set x | x in order) {
    }
    assert (set x | x in order) == m.Keys;
  }

  /** A list holding, position by position, the value under each key of a matching order covers the map exactly. */
  lemma ValuesCoverMap(order: seq<int>, m: map<int, Character>, vs: seq<Character>)
    requires OrderMatches(order, m)
    requires |vs| == |order| && forall i :: 0 <= i < |order| ==> vs[i] == m[order[i]]
    ensures |vs| == |m|
    ensures forall k :: k in m ==> m[k] in vs
    ensures forall x :: x in vs ==> x in m.Values
  {
    OrderLength(order, m);
    forall k | k in m ensures m[k] in vs {
      var i :| 0 <= i < |order| && order[i] == k;
      assert vs[i] == m[k];
    }
  }

  /** `Array.from(characters.values())`: every stored value once, in key insertion order, and nothing else. */
  function Values(order: seq<int>, m: map<int, Character>): (vs: seq<Character>)
    requires OrderMatches(order, m)
    ensures |vs| == |order| == |m|
    ensures forall i :: 0 <= i < |order| ==> vs[i] == m[order[i]]
    ensures forall k :: k in m ==> m[k] in vs
    ensures forall x :: x in vs ==> x in m.Values
  {
    var vs := seq(|order|, i requires 0 <= i < |order| => m[order[i]]);
    ValuesCoverMap(order, m, vs);
    vs
  }

  // ------------------------------------------------------- the map operations

  /** The character `addCharacter` returns: a copy under the fresh id when `c.id` is already stored, else `c` itself. */
  function AddedCharacter(m: map<int, Character>, c: Character, now: int): (r: Character)
    ensures r.name == c.name && r.lastName == c.lastName
    ensures c.id !in m ==> r == c
    ensures c.id in m ==> r.id == now
  {
    if c.id !in m then c else c.(id := now)
  }

  /** The map after `addCharacter` as written: unchanged for an unknown id, a copy stored under `now` for a known one. */
  function AfterAdd(m: map<int, Character>, c: Character, now: int): (m': map<int, Character>)
    ensures c.id !in m ==> m' == m
    ensures c.id in m ==> m'.Keys == m.Keys + {now} && m'[now] == AddedCharacter(m, c, now)
    ensures c.id in m && c.id != now ==> m'[c.id] == m[c.id]
    ensures forall k :: k in m && k != now ==> k in m' && m'[k] == m[k]
  {
    if c.id !in m then m else m[now := AddedCharacter(m, c, now)]
  }

  /** The map after `updateCharacter`: the key set never changes; a known id now maps to `c`. */
  function AfterUpdate(m: map<int, Character>, id: int, c: Character): (m': map<int, Character>)
    ensures m'.Keys == m.Keys
    ensures id !in m ==> m' == m
    ensures id in m ==> m'[id] == c
    ensures forall k :: k in m && k != id ==> m'[k] == m[k]
  {
    if id in m then m[id := c] else m
  }

  /** The map after `deleteCharacter`: exactly that key is gone. */
  function AfterDelete(m: map<int, Character>, id: int): (m': map<int, Character>)
    ensures m'.Keys == m.Keys - {id}
    ensures forall k :: k in m' ==> m'[k] == m[k]
  {
    m - {id}
  }

  /** The store operations that change the map. */
  datatype CharacterOp = Add(c: Character, now: int) | Update(id: int, c: Character) | Delete(id: int)

  function Step(m: map<int, Character>, op: CharacterOp): map<int, Character>
  {
    match op
    case Add(c, now) => AfterAdd(m, c, now)
    case Update(id, c) => AfterUpdate(m, id, c)
    case Delete(id) => AfterDelete(m, id)
  }

  function Replay(m: map<int, Character>, ops: seq<CharacterOp>): map<int, Character>
    decreases |ops|
  {
    if ops == [] then m else Replay(Step(m, ops[0]), ops[1..])
  }

  /**
   * The inverted guard of `addCharacter` in action: an empty store stays empty
   * under every sequence of operations, since only `addCharacter` inserts and
   * it inserts only next to an id already stored.
   */
  lemma {:induction false} EmptyStoreStaysEmpty(ops: seq<CharacterOp>)
    ensures Replay(map[], ops) == map[]
    decreases |ops|
  {
    if ops != [] {
      assert Step(map[], ops[0]) == map[];
      EmptyStoreStaysEmpty(ops[1..]);
    }
  }

  /** No call of `addCharacter` ever stores the character it was given under that character's own, unknown id. */
  lemma AddNeverStoresUnknownId(m: map<int, Character>, c: Character, now: int)
    requires c.id !in m
    ensures AfterAdd(m, c, now) == m && c.id !in AfterAdd(m, c, now)
  {
  }

  /** The map after `addCharacter` as its comment and log message describe it: an id already stored is refused, a new character is stored under the fresh id. */
  function IntendedAfterAdd(m: map<int, Character>, c: Character, now: int): (m': map<int, Character>)
    ensures c.id in m ==> m' == m
    ensures c.id !in m ==> m'.Keys == m.Keys + {now} && m'[now] == c.(id := now)
    ensures forall k :: k in m && k != now ==> k in m' && m'[k] == m[k]
  {
    if c.id in m then m else m[now := c.(id := now)]
  }

  /** With the guard the right way round, adding to an empty store stores the character. */
  lemma IntendedAddPopulatesEmptyStore(c: Character, now: int)
    ensures IntendedAfterAdd(map[], c, now) == map[now := c.(id := now)]
    ensures |IntendedAfterAdd(map[], c, now)| == 1
  {
  }

  // ------------------------------------------------------------------- store

  /** The store; `characters` is the module-level `Map<number, Character>`, `order` its key order. */
  class CharacterStore {
    var order: seq<int>
    var characters: map<int, Character>

    ghost predicate Valid()
      reads this
    {
      OrderMatches(order, characters)
    }

    constructor ()
      ensures Valid() && characters == map[] && order == []
    {
      order := [];
      characters := map[];
    }

    /** `getAllCharacters`: every stored value once, in insertion order of the keys. */
    method GetAllCharacters() returns (all: seq<Character>)
      requires Valid()
      ensures |all| == |order| == |characters|
      ensures forall i :: 0 <= i < |order| ==> all[i] == characters[order[i]]
      ensures forall k :: k in characters ==> characters[k] in all
      ensures forall x :: x in all ==> x in characters.Values
    {
      all := Values(order, characters);
    }

    /** `getCharacterById`: the map lookup. */
    method GetCharacterById(id: int) returns (r: Option<Character>)
      ensures r.None? <==> id !in characters
      ensures r.Some? ==> r.value == characters[id]
    {
      if id in characters {
        r := Some(characters[id]);
      } else {
        r := None;
      }
    }

    /** `addCharacter` as written: see `AfterAdd` and `AddedCharacter`. */
    method AddCharacter(c: Character, now: int) returns (r: Character)
      requires Valid()
      modifies this
      ensures Valid()
      ensures r == AddedCharacter(old(characters), c, now)
      ensures characters == AfterAdd(old(characters), c, now)
      ensures order == if c.id in old(characters) then OrderAfterSet(old(order), old(characters), now) else old(order)
    {
      if c.id !in characters {
        return c;
      }
      var created := c.(id := now);
      OrderAfterSetMatches(order, characters, now, created);
      order := OrderAfterSet(order, characters, now);
      characters := characters[now := created];
      r := created;
    }

    /** The corrected `addCharacter`: see `IntendedAfterAdd`. */
    method AddCharacterAsDocumented(c: Character, now: int) returns (r: Character)
      requires Valid()
      modifies this
      ensures Valid()
      ensures characters == IntendedAfterAdd(old(characters), c, now)
      ensures r == if c.id in old(characters) then c else c.(id := now)
      ensures order == if c.id in old(characters) then old(order) else OrderAfterSet(old(order), old(characters), now)
    {
      if c.id in characters {
        return c;
      }
      var created := c.(id := now);
      OrderAfterSetMatches(order, characters, now, created);
      order := OrderAfterSet(order, characters, now);
      characters := characters[now := created];
      r := created;
    }

    /** `updateCharacter`: null for an unknown id; otherwise `id` maps to the new value, in place. */
    method UpdateCharacter(id: int, updated: Character) returns (r: Option<Character>)
      requires Valid()
      modifies this
      ensures Valid()
      ensures r.None? <==> id !in old(characters)
      ensures r.Some? ==> r.value == updated
      ensures characters == AfterUpdate(old(characters), id, updated)
      ensures order == old(order)
    {
      if id !in characters {
        return None;
      }
      characters := characters[id := updated];
      r := Some(updated);
    }

    /** `deleteCharacter`: false for an unknown id; otherwise removes exactly that key. */
    method DeleteCharacter(id: int) returns (ok: bool)
      requires Valid()
      modifies this
      ensures Valid()
      ensures ok <==> id in old(characters)
      ensures characters == AfterDelete(old(characters), id)
      ensures order == OrderAfterDelete(old(order), id)
    {
      if id !in characters {
        return false;
      }
      order := OrderAfterDelete(order, id);
      characters := characters - {id};
      ok := true;
    }
  }
}
