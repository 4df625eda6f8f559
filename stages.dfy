/** The six review stages and the token table that selects one of them.
    project.js (getAllProjectByStage, getAllProjectsForSingleStaff) and
    review.js (updateReview) each carry a copy of the same table; it is
    defined once here. */
module Stages {
  import opened Common

  datatype Stage = Zero | One | Two | Three | Model | Final

  const AllStages: set<Stage> := {Zero, One, Two, Three, Model, Final}

  /** The six case-sensitive tokens a request may name a stage by. */
  const StageTokens: set<string> := {"zero", "one", "two", "three", "model", "final"}

  /** The query token of a stage. */
  function Token(s: Stage): (t: string)
    ensures t in StageTokens
  {
    match s
    case Zero => "zero"
    case One => "one"
    case Two => "two"
    case Three => "three"
    case Model => "model"
    case Final => "final"
  }

  /** Resolves a stage token through the closed table of six entries. */
  function ParseStage(t: string): (r: Option<Stage>)
    ensures r.Some? <==> t in StageTokens
    ensures r.Some? ==> Token(r.value) == t
    ensures forall s :: Token(s) == t ==> r == Some(s)
  {
    if t == "zero" then Some(Zero)
    else if t == "one" then Some(One)
    else if t == "two" then Some(Two)
    else if t == "three" then Some(Three)
    else if t == "model" then Some(Model)
    else if t == "final" then Some(Final)
    else None
  }

  lemma InAllStages(s: Stage)
    ensures s in AllStages
  {
  }

  /** Distinct stages have distinct tokens, so every token names one slot. */
  lemma TokensDistinct(s1: Stage, s2: Stage)
    ensures Token(s1) == Token(s2) ==> s1 == s2
    ensures ParseStage(Token(s1)) == Some(s1)
  {
  }

  /** One value per stage slot: the six stage tables of the store, the six
      identifiers of a new review's records, and so on. */
  datatype PerStage<T> = PerStage(zero: T, one: T, two: T, three: T, model: T, final: T)
  {
    function Get(s: Stage): T
    {
      match s
      case Zero => zero
      case One => one
      case Two => two
      case Three => three
      case Model => model
      case Final => final
    }

    /** Replaces the value of one slot; the other five are kept. */
    function Set(s: Stage, v: T): (r: PerStage<T>)
      ensures r.Get(s) == v
      ensures forall s' :: s' != s ==> r.Get(s') == Get(s')
    {
      match s
      case Zero => this.(zero := v)
      case One => this.(one := v)
      case Two => this.(two := v)
      case Three => this.(three := v)
      case Model => this.(model := v)
      case Final => this.(final := v)
    }
  }

  /** Two per-stage values agreeing on every stage are equal. */
  lemma PerStageEq<T>(a: PerStage<T>, b: PerStage<T>)
    requires forall s :: a.Get(s) == b.Get(s)
    ensures a == b
  {
    assert a.Get(Zero) == b.Get(Zero) && a.Get(One) == b.Get(One) && a.Get(Two) == b.Get(Two);
    assert a.Get(Three) == b.Get(Three) && a.Get(Model) == b.Get(Model) && a.Get(Final) == b.Get(Final);
  }

  // ---------------------------------------------------------------------
  // The table as the source looks it up. `reviewFields[stage]` indexes a
  // plain object literal, so besides its six own properties it also yields
  // every member inherited from Object.prototype, each of them truthy.

  /** Names every plain JavaScript object inherits from Object.prototype. */
  const PrototypeMembers: set<string> := {
    "constructor", "__proto__", "hasOwnProperty", "isPrototypeOf",
    "propertyIsEnumerable", "toString", "toLocaleString", "valueOf",
    "__defineGetter__", "__defineSetter__", "__lookupGetter__", "__lookupSetter__"
  }

  /** No inherited member is spelled like a stage token: every inherited
      name is longer than every token. */
  lemma PrototypeMembersAreNotTokens()
    ensures forall t :: t in PrototypeMembers ==> t !in StageTokens
  {
    forall t | t in PrototypeMembers ensures t !in StageTokens {
      assert |t| >= 7;
    }
  }

  /** What `reviewFields[stage]` evaluates to. */
  datatype PropertyLookup = OwnField(stage: Stage) | Inherited(name: string) | Undefined

  /** The property lookup as written: own properties first, then the
      prototype chain. */
  function LookupAsWritten(t: string): (r: PropertyLookup)
    ensures r.OwnField? <==> ParseStage(t).Some?
    ensures r.OwnField? ==> r.stage == ParseStage(t).value
    ensures r.Inherited? <==> t in PrototypeMembers
    ensures r.Undefined? <==> t !in StageTokens && t !in PrototypeMembers
  {
    PrototypeMembersAreNotTokens();
    match ParseStage(t)
    case Some(s) => OwnField(s)
    case None => if t in PrototypeMembers then Inherited(t) else Undefined
  }

  /** The guard `if (!reviewField)` as written lets a token through exactly
      when the lookup is not undefined. */
  predicate PassesGuardAsWritten(t: string): (r: bool)
    ensures r <==> t in StageTokens || t in PrototypeMembers
  {
    !LookupAsWritten(t).Undefined?
  }

  /** The guard as written admits tokens outside the six: "constructor"
      passes it although it names no stage. */
  lemma InheritedNamePassesGuard()
    ensures PassesGuardAsWritten("constructor")
    ensures ParseStage("constructor") == None
  {
    assert "constructor" in PrototypeMembers;
  }
}
