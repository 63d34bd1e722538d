// The player service: a store of character records that its operations
// update in place, and the attack that lowers a target's health. Each
// operation is proved against the store functions of module Players.

module PlayerServices {
  import opened Wrappers
  import opened Text
  import opened Players

  /** Anything that can be attacked: a name and a health value that attacks change. */
  class Target {
    const name: string
    var health: int

    constructor(name: string, health: int)
      ensures this.name == name && this.health == health
    {
      this.name := name;
      this.health := health;
    }
  }

  /** A bound above every id in the store. */
  function IdBound(s: Store): (r: int)
    ensures forall i :: 0 <= i < |s| ==> s[i].id < r
  {
    if s == [] then 1
    else
      var rest := IdBound(s[1..]);
      if s[0].id < rest then rest else s[0].id + 1
  }

  class PlayerService {
    /** The stored records, in the order the store returns them. */
    var players: Store
    /** The next id the store hands out; ids are never reused. */
    var nextId: int

    ghost predicate Valid()
      reads this
    {
      DistinctIds(players) && forall p :: p in players ==> p.id < nextId
    }

    constructor(initial: Store)
      requires DistinctIds(initial)
      ensures Valid() && players == initial
    {
      players := initial;
      nextId := IdBound(initial);
    }

    /** Attacking: the target loses the weapon's attack value, or nothing without a weapon. */
    method Attack(player: Player, target: Target) returns (lines: seq<string>)
      modifies target
      ensures target.health == Struck(old(target.health), player)
      ensures lines == AttackReport(player, target.name, target.health)
    {
      if Weapon(player).None? {
        lines := [player.name + " has no weapon equipped!"];
        return;
      }
      var weapon := Weapon(player).value;
      target.health := target.health - weapon.attack;
      lines := [player.name + " attacks " + target.name + " with a " + weapon.name + " dealing " + Decimal(weapon.attack) + " damage!",
                target.name + " has " + Decimal(target.health) + " health remaining."];
    }

    /** Adding a character appends exactly one new record with a fresh id. */
    method AddCharacter(name: string, health: int, experience: int) returns (message: string)
      requires Valid()
      modifies this
      ensures Valid()
      ensures players == old(players) + [NewPlayer(old(nextId), name, health, experience)]
      ensures old(nextId) !in Ids(old(players))
      ensures message == "Added new player: " + name
    {
      var player := NewPlayer(nextId, name, health, experience);
      players := players + [player];
      nextId := nextId + 1;
      message := "Added new player: " + player.name;
    }

    /** Updating a character by id; a missing id is reported and nothing changes. */
    method UpdateCharacter(playerId: int, name: string, health: int, experience: int) returns (message: string)
      requires Valid()
      modifies this
      ensures Valid() && nextId == old(nextId)
      ensures players == Update(old(players), playerId, name, health, experience)
      ensures message == if playerId in Ids(old(players)) then "Updated player: " + name else "Character not found."
    {
      var found := Find(players, playerId);
      if found.None? {
        message := "Character not found.";
        return;
      }
      var k := found.value;
      players := players[k := Rewrite(players[k], name, health, experience)];
      message := "Updated player: " + players[k].name;
    }

    /** Deleting a character by id; a missing id is reported and nothing changes. */
    method DeleteCharacter(playerId: int) returns (message: string)
      requires Valid()
      modifies this
      ensures Valid() && nextId == old(nextId)
      ensures players == Delete(old(players), playerId)
      ensures playerId !in Ids(old(players)) ==> message == "Character not found."
      ensures forall i :: 0 <= i < |old(players)| && old(players)[i].id == playerId ==>
        message == "Deleted player: " + old(players)[i].name
    {
      var found := Find(players, playerId);
      if found.None? {
        message := "Character not found.";
        return;
      }
      var k := found.value;
      FindOnly(players, playerId);
      message := "Deleted player: " + players[k].name;
      players := players[..k] + players[k + 1..];
    }

    /** Searching by name: every record whose name contains the query, in store order. */
    method SearchCharacters(search: string) returns (found: Store, lines: seq<string>)
      ensures found == Search(players, search)
      ensures lines == SearchReport(found)
    {
      found := Search(players, search);
      lines := SearchReport(found);
    }

    /** Adding an ability to a character by id; a missing id is reported and nothing changes. */
    method AddAbilityToCharacter(characterId: int, abilityName: string, abilityDescription: string, abilityType: string)
      returns (message: string)
      requires Valid()
      modifies this
      ensures Valid() && nextId == old(nextId)
      ensures players == AddAbility(old(players), characterId, Ability(abilityName, abilityDescription, abilityType))
      ensures characterId !in Ids(old(players)) ==> message == "Character not found."
      ensures forall i :: 0 <= i < |old(players)| && old(players)[i].id == characterId ==>
        message == "Added ability " + abilityName + " to " + old(players)[i].name
    {
      var found := Find(players, characterId);
      if found.None? {
        message := "Character not found.";
        return;
      }
      var k := found.value;
      FindOnly(players, characterId);
      var ability := Ability(abilityName, abilityDescription, abilityType);
      players := players[k := Grant(players[k], ability)];
      message := "Added ability " + ability.name + " to " + players[k].name;
    }
  }
}
