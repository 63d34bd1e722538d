// Character records and the pure rules behind the player service: the
// weapon and ability checks, and the store operations (find by id, update,
// delete, grant an ability, search by name) written as functions on a
// sequence of records kept in store order.

module Players {
  import opened Wrappers
  import opened Text

  datatype Ability = Ability(name: string, description: string, abilityType: string)

  datatype Item = Item(name: string, attack: int)

  /** The equipment slot; only its weapon matters to an attack. */
  datatype Equipment = Equipment(weapon: Option<Item>)

  /**
   * A character. `equipment` and `inventory` are None when the record has no
   * such row; an inventory is the list of its items.
   */
  datatype Player = Player(
    id: int,
    name: string,
    experience: int,
    health: int,
    equipment: Option<Equipment>,
    inventory: Option<seq<Item>>,
    abilities: seq<Ability>)

  type Store = seq<Player>

  function Ids(s: Store): set<int> {
    set p | p in s :: p.id
  }

  /** The primary key: no two records share an id. */
  predicate DistinctIds(s: Store) {
    forall i, j :: 0 <= i < |s| && 0 <= j < |s| && s[i].id == s[j].id ==> i == j
  }

  /** Lookup by primary key: the position of the record with this id, if any. */
  function Find(s: Store, id: int): (r: Option<nat>)
    ensures r.Some? ==> r.value < |s| && s[r.value].id == id
    ensures r.Some? ==> forall i :: 0 <= i < r.value ==> s[i].id != id
    ensures r.None? <==> id !in Ids(s)
  {
    if s == [] then None
    else if s[0].id == id then Some(0)
    else match Find(s[1..], id)
      case None => None
      case Some(k) => Some(k + 1)
  }

  /** Under distinct ids, the record found is the only one with that id. */
  lemma FindOnly(s: Store, id: int)
    requires DistinctIds(s)
    ensures forall i :: 0 <= i < |s| && s[i].id == id ==> Find(s, id) == Some(i)
  {
  }

  // ----- Combat -----

  /** The weapon in the player's equipment slot, if there is a slot and it holds one. */
  function Weapon(p: Player): (r: Option<Item>)
    ensures r.Some? ==> p.equipment == Some(Equipment(r))
    ensures r.None? <==> p.equipment.None? || p.equipment.value.weapon.None?
  {
    if p.equipment.Some? then p.equipment.value.weapon else None
  }

  /**
   * The target's health after the player attacks it: lowered by exactly the
   * weapon's attack value, with no lower bound, and unchanged without a weapon.
   */
  function Struck(health: int, p: Player): (r: int)
    ensures Weapon(p).None? ==> r == health
    ensures Weapon(p).Some? ==> r == health - Weapon(p).value.attack
  {
    match Weapon(p)
    case None => health
    case Some(w) => health - w.attack
  }

  /** The damage one attack deals: the weapon's attack value, or nothing. */
  function Damage(p: Player): int {
    if Weapon(p).Some? then Weapon(p).value.attack else 0
  }

  /** The target's health after `n` attacks in a row by the same player. */
  function AfterAttacks(health: int, p: Player, n: nat): (r: int)
    ensures r == health - n * Damage(p)
    ensures Weapon(p).Some? && Weapon(p).value.attack > 0 && n * Weapon(p).value.attack > health ==> r < 0
  {
    if n == 0 then health else Struck(AfterAttacks(health, p, n - 1), p)
  }

  /** What the service reports for an attack. */
  function AttackReport(p: Player, targetName: string, healthAfter: int): (r: seq<string>)
    ensures Weapon(p).None? ==> r == [p.name + " has no weapon equipped!"]
    ensures Weapon(p).Some? ==>
      |r| == 2 &&
      r[0] == p.name + " attacks " + targetName + " with a " + Weapon(p).value.name +
              " dealing " + Decimal(Weapon(p).value.attack) + " damage!"
    ensures Weapon(p).Some? ==> r[1] == targetName + " has " + Decimal(healthAfter) + " health remaining."
  {
    match Weapon(p)
    case None => [p.name + " has no weapon equipped!"]
    case Some(w) =>
      [p.name + " attacks " + targetName + " with a " + w.name + " dealing " + Decimal(w.attack) + " damage!",
       targetName + " has " + Decimal(healthAfter) + " health remaining."]
  }

  // ----- Abilities and items -----

  /**
   * The outcome of a guarded call: the guarded effect is invoked, or skipped
   * without a word, or a message is reported; only Invoke changes anything.
   */
  datatype Gate = Invoke | Skip | Report(message: string)

  /** Using an ability: activated only when the player has it. */
  function UseAbility(p: Player, a: Ability): (r: Gate)
    ensures r.Invoke? <==> a in p.abilities
    ensures !r.Skip?
    ensures r.Report? ==> r.message == p.name + " does not have the ability " + a.name + "!"
  {
    if a in p.abilities then Invoke
    else Report(p.name + " does not have the ability " + a.name + "!")
  }

  /** Whether the item is in the player's inventory. */
  predicate Carries(p: Player, item: Item)
    ensures p.inventory.None? ==> !Carries(p, item)
    ensures Carries(p, item) <==> p.inventory.Some? && multiset(p.inventory.value)[item] > 0
  {
    p.inventory.Some? && item in p.inventory.value
  }

  /**
   * Equipping from the inventory: only a carried item reaches the equipment,
   * and only when the player has an equipment slot; an item not carried is
   * reported.
   */
  function EquipItemFromInventory(p: Player, item: Item): (r: Gate)
    ensures r.Invoke? <==> Carries(p, item) && p.equipment.Some?
    ensures r.Skip? <==> Carries(p, item) && p.equipment.None?
    ensures r.Report? <==> !Carries(p, item)
    ensures r.Report? ==> r.message == p.name + " does not have the item " + item.name + " in their inventory!"
  {
    if !Carries(p, item) then Report(p.name + " does not have the item " + item.name + " in their inventory!")
    else if p.equipment.None? then Skip
    else Invoke
  }

  // ----- The store -----

  /** A new record: no equipment, no inventory, no abilities. */
  function NewPlayer(id: int, name: string, health: int, experience: int): (r: Player)
    ensures r.id == id && r.name == name && r.health == health && r.experience == experience
    ensures forall a :: UseAbility(r, a).Report?
    ensures forall item :: EquipItemFromInventory(r, item).Report?
    ensures Weapon(r).None?
  {
    Player(id, name, experience, health, None, None, [])
  }

  /** The records other than the one with this id, in store order. */
  function Without(s: Store, id: int): (r: Store)
    ensures forall p :: p in r <==> p in s && p.id != id
    ensures id !in Ids(s) ==> r == s
  {
    if s == [] then []
    else if s[0].id == id then Without(s[1..], id)
    else [s[0]] + Without(s[1..], id)
  }

  /** The records after the first keep distinct ids, none of them the first one's. */
  lemma DistinctTail(s: Store)
    requires DistinctIds(s) && s != []
    ensures DistinctIds(s[1..]) && s[0].id !in Ids(s[1..])
  {
    forall i, j | 0 <= i < |s[1..]| && 0 <= j < |s[1..]| && s[1..][i].id == s[1..][j].id
      ensures i == j
    {
      assert s[i + 1].id == s[j + 1].id;
    }
    forall p | p in s[1..] ensures p.id != s[0].id {
      var i :| 0 <= i < |s[1..]| && s[1..][i] == p;
      assert s[i + 1] == p;
    }
  }

  /** Removing an element after the first commutes with splitting off the first. */
  lemma DropFirst<T>(s: seq<T>, k: nat)
    requires 0 < k < |s|
    ensures s[..k] + s[k + 1..] == [s[0]] + (s[1..][..k - 1] + s[1..][k..])
  {
    assert s[..k] == [s[0]] + s[1..][..k - 1];
    assert s[k + 1..] == s[1..][k..];
  }

  /** Removing the record at `k` is the same as removing every record with its id. */
  lemma {:induction false} RemoveAt(s: Store, k: nat)
    requires DistinctIds(s) && k < |s|
    ensures s[..k] + s[k + 1..] == Without(s, s[k].id)
  {
    var id := s[k].id;
    var t := s[1..];
    DistinctTail(s);
    if k == 0 {
      assert Without(s, id) == Without(t, id);
      assert s[..0] + s[1..] == t;
    } else {
      assert s[0].id != id;
      RemoveAt(t, k - 1);
      assert t[k - 1] == s[k];
      DropFirst(s, k);
      assert Without(s, id) == [s[0]] + Without(t, id);
    }
  }

  /** Deleting by id: the record found is removed; a missing id leaves the store as it was. */
  function Delete(s: Store, id: int): (r: Store)
    ensures id !in Ids(s) ==> r == s
    ensures id in Ids(s) ==> |r| == |s| - 1
    ensures DistinctIds(s) ==> r == Without(s, id)
    ensures DistinctIds(s) ==> DistinctIds(r) && Ids(r) == Ids(s) - {id}
  {
    match Find(s, id)
    case None => s
    case Some(k) =>
      if DistinctIds(s) then
        RemoveAt(s, k);
        DistinctRemove(s, k);
        s[..k] + s[k + 1..]
      else
        s[..k] + s[k + 1..]
  }

  /** Removing one record keeps the remaining ids distinct. */
  lemma DistinctRemove(s: Store, k: nat)
    requires DistinctIds(s) && k < |s|
    ensures DistinctIds(s[..k] + s[k + 1..])
  {
    var r := s[..k] + s[k + 1..];
    forall i, j | 0 <= i < |r| && 0 <= j < |r| && r[i].id == r[j].id ensures i == j {
      var i' := if i < k then i else i + 1;
      var j' := if j < k then j else j + 1;
      assert r[i] == s[i'] && r[j] == s[j'];
    }
  }

  /** The record `p` with new name, health and experience. */
  function Rewrite(p: Player, name: string, health: int, experience: int): (r: Player)
    ensures r.name == name && r.health == health && r.experience == experience
    ensures r.id == p.id && r.equipment == p.equipment && r.inventory == p.inventory && r.abilities == p.abilities
  {
    p.(name := name, health := health, experience := experience)
  }

  /**
   * Updating by id: the record found gets the new name, health and experience;
   * no other record changes; a missing id leaves the store as it was.
   */
  function Update(s: Store, id: int, name: string, health: int, experience: int): (r: Store)
    ensures |r| == |s| && forall i :: 0 <= i < |s| ==> r[i].id == s[i].id
    ensures id !in Ids(s) ==> r == s
    ensures DistinctIds(s) ==> DistinctIds(r) && Ids(r) == Ids(s)
    ensures DistinctIds(s) ==>
      forall i :: 0 <= i < |s| ==> r[i] == (if s[i].id == id then Rewrite(s[i], name, health, experience) else s[i])
  {
    match Find(s, id)
    case None => s
    case Some(k) =>
      var r := s[k := Rewrite(s[k], name, health, experience)];
      assert forall i :: 0 <= i < |s| ==> r[i].id == s[i].id;
      assert Ids(r) == Ids(s) by {
        forall x ensures x in Ids(r) <==> x in Ids(s) {
          if x in Ids(r) {
            var p :| p in r && p.id == x;
            var i :| 0 <= i < |r| && r[i] == p;
            assert s[i] in s;
          }
          if x in Ids(s) {
            var p :| p in s && p.id == x;
            var i :| 0 <= i < |s| && s[i] == p;
            assert r[i] in r;
          }
        }
      }
      r
  }

  /** The record `p` with one more ability. */
  function Grant(p: Player, a: Ability): (r: Player)
    ensures r.id == p.id && r.abilities == p.abilities + [a]
    ensures multiset(r.abilities) == multiset(p.abilities) + multiset{a}
  {
    p.(abilities := p.abilities + [a])
  }

  /**
   * Adding an ability by id: the record found has the ability added; no other
   * record changes; a missing id leaves the store as it was.
   */
  function AddAbility(s: Store, id: int, a: Ability): (r: Store)
    ensures |r| == |s| && forall i :: 0 <= i < |s| ==> r[i].id == s[i].id
    ensures id !in Ids(s) ==> r == s
    ensures DistinctIds(s) ==> DistinctIds(r) && Ids(r) == Ids(s)
    ensures DistinctIds(s) ==>
      forall i :: 0 <= i < |s| ==> r[i] == (if s[i].id == id then Grant(s[i], a) else s[i])
  {
    match Find(s, id)
    case None => s
    case Some(k) =>
      var r := s[k := Grant(s[k], a)];
      assert forall i :: 0 <= i < |s| ==> r[i].id == s[i].id;
      assert Ids(r) == Ids(s) by {
        forall x ensures x in Ids(r) <==> x in Ids(s) {
          if x in Ids(r) {
            var p :| p in r && p.id == x;
            var i :| 0 <= i < |r| && r[i] == p;
            assert s[i] in s;
          }
          if x in Ids(s) {
            var p :| p in s && p.id == x;
            var i :| 0 <= i < |s| && s[i] == p;
            assert r[i] in r;
          }
        }
      }
      r
  }

  /** After an ability is added to a character, that character can use it. */
  lemma {:induction false} AddedAbilityUsable(s: Store, id: int, a: Ability, i: int)
    requires DistinctIds(s) && 0 <= i < |s| && s[i].id == id
    ensures AddAbility(s, id, a)[i].abilities == s[i].abilities + [a]
    ensures UseAbility(AddAbility(s, id, a)[i], a) == Invoke
  {
    var r := AddAbility(s, id, a);
    assert r[i] == Grant(s[i], a);
    assert a in r[i].abilities by {
      assert r[i].abilities[|s[i].abilities|] == a;
    }
  }

  // ----- Search -----

  /** The records whose name contains the query, in store order. */
  function Search(s: Store, query: string): (r: Store)
    ensures |r| <= |s|
    ensures forall p :: p in r <==> p in s && Contains(p.name, query)
  {
    if s == [] then []
    else if Contains(s[0].name, query) then [s[0]] + Search(s[1..], query)
    else Search(s[1..], query)
  }

  /** Search keeps store order: it distributes over concatenation. */
  lemma {:induction false} SearchAppend(a: Store, b: Store, query: string)
    ensures Search(a + b, query) == Search(a, query) + Search(b, query)
  {
    if a == [] {
      assert a + b == b;
    } else {
      var c := a + b;
      assert c != [] && c[0] == a[0] && c[1..] == a[1..] + b;
      SearchAppend(a[1..], b, query);
      if Contains(a[0].name, query) {
        calc {
          Search(c, query);
          [a[0]] + Search(a[1..] + b, query);
          [a[0]] + (Search(a[1..], query) + Search(b, query));
          ([a[0]] + Search(a[1..], query)) + Search(b, query);
        }
      }
    }
  }

  /** The empty query matches every record. */
  lemma {:induction false} SearchEmptyQuery(s: Store)
    ensures Search(s, "") == s
  {
    if s != [] {
      ContainsEmpty(s[0].name);
      SearchEmptyQuery(s[1..]);
      assert s == [s[0]] + s[1..];
    }
  }

  /** A record added to the store is found, at the end, by every query its name contains. */
  lemma AddedPlayerFound(s: Store, p: Player, query: string)
    ensures Search(s + [p], query) == Search(s, query) + (if Contains(p.name, query) then [p] else [])
  {
    SearchAppend(s, [p], query);
    assert [p][1..] == [];
  }

  /** A deleted record is found by no query. */
  lemma DeletedPlayerNotFound(s: Store, id: int, query: string)
    requires DistinctIds(s)
    ensures forall p :: p in Search(Delete(s, id), query) ==> p.id != id
  {
  }

  // ----- Report lines -----

  /** One line of a search report; it contains the record's name. */
  function PlayerLine(p: Player): (r: string)
    ensures Contains(r, p.name)
  {
    var head := IdField(p.id) + ", Name: ";
    var r := head + (p.name + Stats(p));
    Middle(head, p.name, Stats(p));
    OccursContains(r, p.name, |head|);
    r
  }

  function IdField(id: int): string {
    "Character ID: " + Decimal(id)
  }

  function Stats(p: Player): string {
    ", Health: " + Decimal(p.health) + ", Experience: " + Decimal(p.experience)
  }

  /** A report line starts with `Character ID: ` and the id, which reads back as the record's id. */
  lemma PlayerLineId(p: Player)
    ensures var r, d := PlayerLine(p), Decimal(p.id);
      14 + |d| <= |r| && r[..14] == "Character ID: " && ParseDecimal(r[14..14 + |d|]) == p.id
  {
    var d := Decimal(p.id);
    var rest := ", Name: " + (p.name + Stats(p));
    assert PlayerLine(p) == "Character ID: " + (d + rest);
    Middle("Character ID: ", d, rest);
    DecimalRoundTrip(p.id);
  }

  /** Where `b` sits in `a + (b + c)`. */
  lemma Middle(a: string, b: string, c: string)
    ensures a + b + c == a + (b + c)
    ensures (a + (b + c))[|a|..|a| + |b|] == b
  {
  }

  /** What a search reports: a heading and one line per record found, or a notice when none is. */
  function SearchReport(found: Store): (r: seq<string>)
    ensures found == [] <==> r == ["No characters found."]
    ensures found != [] ==> |r| == |found| + 1 && r[0] == "\nPlayers:"
    ensures forall i :: 0 <= i < |found| && found != [] ==> r[i + 1] == PlayerLine(found[i])
  {
    if found == [] then ["No characters found."]
    else ["\nPlayers:"] + seq(|found|, i requires 0 <= i < |found| => PlayerLine(found[i]))
  }
}
