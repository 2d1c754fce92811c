/** The read-only reference data the projection engine consults: stat keys,
    class definitions, the character record and the class-change events the
    user enters. The class table itself is a parameter of every operation. */
module Catalog {

  /** The closed set of stat keys; `Mv` (movement) is never grown. */
  datatype Stat = Hp | Str | Mag | Dex | Spd | Lck | Def | Res | Cha | Mv

  type ClassId = string

  /** One entry of the class table: per-stat base values (the floor a stat is
      raised to on entering the class, movement included), per-stat growth
      percentages and per-stat flat boosts. */
  datatype ClassDef = ClassDef(bases: map<Stat, int>, growths: map<Stat, int>, boosts: map<Stat, int>)

  type Classes = map<ClassId, ClassDef>

  /** A character: its starting class and its own per-stat growth percentages. */
  datatype Character = Character(cls: ClassId, growths: map<Stat, int>)

  /** The class carried by a class-change event; `Placeholder` is the
      terminal marker the timeline ends with (the source's `class: null`). */
  datatype ClassRef = Placeholder | Class(id: ClassId)

  datatype ClassChange = ClassChange(level: int, cls: ClassRef)

  /** Everything the component receives from its parent (and its own final
      level): the character, its joining level and joining stats, the
      class-change list and the level to project to. */
  datatype Props = Props(
    character: Character,
    baseLevel: int,
    baseStats: map<Stat, int>,
    classChanges: seq<ClassChange>,
    finalLevel: int)

  /** A class entry that answers every lookup the engine makes. */
  predicate Complete(d: ClassDef) {
    (forall s :: s in d.bases) &&
    (forall s :: s != Mv ==> s in d.growths && s in d.boosts)
  }

  /** The class table is fully populated, the character's starting class and
      every class named by a user event are in it, and the character's growths
      and joining stats cover every stat but movement. */
  predicate WellFormed(p: Props, classes: Classes) {
    (forall id :: id in classes ==> Complete(classes[id])) &&
    p.character.cls in classes &&
    (forall i :: 0 <= i < |p.classChanges| ==>
       p.classChanges[i].cls.Class? && p.classChanges[i].cls.id in classes) &&
    (forall s :: s != Mv ==> s in p.character.growths && s in p.baseStats)
  }
}
