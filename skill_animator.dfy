/**
 * The staged skill animator of the portfolio page
 * (components/portfolio-client.jsx).
 *
 * Half a second after mount, `animateSkills` schedules one timeout per
 * skill, `index * 100` ms apart; each merges `name -> level` into the
 * `skillAnimations` state map, which the skill bars read for their widths.
 * Timers are abstracted to pending `Timeout` values that the host fires.
 */
module SkillAnimator {

  /** One entry of the expertise list; its category is display-only. */
  datatype Skill = Skill(name: string, level: int)

  /** A pending timeout: `at` ms after mount it merges `skill` into the map. */
  datatype Timeout = Timeout(at: nat, skill: Skill)

  /** Delay of the outer `setTimeout(animateSkills, ...)`. */
  const AnimateDelay: nat := 500
  /** Per-position step of the inner timeouts. */
  const SkillStep: nat := 100

  /**
   * The timeouts `animateSkills` schedules, one per skill in list order: the
   * one at position `i` is due `i * SkillStep` ms after the outer timer, so
   * start times strictly increase along the list, equal levels or not.
   */
  function Schedule(expertise: seq<Skill>): (pending: seq<Timeout>)
    ensures |pending| == |expertise|
    ensures forall i :: 0 <= i < |pending| ==> pending[i].skill == expertise[i]
    ensures |pending| > 0 ==> pending[0].at == AnimateDelay
    ensures forall i :: 0 < i < |pending| ==> pending[i].at == pending[i - 1].at + SkillStep
    ensures forall i, j :: 0 <= i < j < |pending| ==> pending[i].at < pending[j].at
  {
    seq(|expertise|, i requires 0 <= i < |expertise| => Timeout(AnimateDelay + i * SkillStep, expertise[i]))
  }

  /** `animateSkills`, run when the outer timer fires: a `forEach` that schedules each skill. */
  method AnimateSkills(expertise: seq<Skill>) returns (pending: seq<Timeout>)
    ensures pending == Schedule(expertise)
  {
    pending := [];
    var index := 0;
    while index < |expertise|
      invariant 0 <= index <= |expertise| && |pending| == index
      invariant forall i :: 0 <= i < index ==> pending[i] == Timeout(AnimateDelay + i * SkillStep, expertise[i])
    {
      pending := pending + [Timeout(AnimateDelay + index * SkillStep, expertise[index])];
      index := index + 1;
    }
  }

  /** The state update of one timeout, `{...prev, [skill.name]: skill.level}`. */
  function Merge(animations: map<string, int>, skill: Skill): (next: map<string, int>)
    ensures next.Keys == animations.Keys + {skill.name}
    ensures next[skill.name] == skill.level
    ensures forall k :: k in animations && k != skill.name ==> next[k] == animations[k]
  {
    animations[skill.name := skill.level]
  }

  /**
   * The map after the given timeouts fired, in order, starting from
   * `animations`: no key is lost, every name fired is present, and the
   * name of the last timeout holds that timeout's level.
   */
  function FireAll(animations: map<string, int>, pending: seq<Timeout>): (fired: map<string, int>)
    ensures animations.Keys <= fired.Keys
    ensures forall i :: 0 <= i < |pending| ==> pending[i].skill.name in fired
    ensures |pending| > 0 ==> fired[pending[|pending| - 1].skill.name] == pending[|pending| - 1].skill.level
    decreases |pending|
  {
    if pending == [] then animations
    else Merge(FireAll(animations, pending[..|pending| - 1]), pending[|pending| - 1].skill)
  }

  /**
   * A bar's width, `skillAnimations[name] || 0`: the stored level, or 0 when
   * the key is absent (a stored 0 is falsy and also gives 0).
   */
  function BarWidth(animations: map<string, int>, name: string): (width: int)
    ensures name !in animations ==> width == 0
    ensures name in animations ==> width == animations[name]
  {
    if name in animations && animations[name] != 0 then animations[name] else 0
  }

  /**
   * After firing a run of timeouts: a key is present iff it was before or
   * some timeout names it; it holds the level of the LAST timeout naming it;
   * keys that no timeout names keep their values.
   */
  lemma {:induction false} FireAllLevels(animations: map<string, int>, pending: seq<Timeout>, name: string)
    ensures name in FireAll(animations, pending) <==>
            name in animations || exists i :: 0 <= i < |pending| && pending[i].skill.name == name
    ensures forall i :: 0 <= i < |pending| && pending[i].skill.name == name &&
                        (forall j :: i < j < |pending| ==> pending[j].skill.name != name) ==>
                        FireAll(animations, pending)[name] == pending[i].skill.level
    ensures (forall i :: 0 <= i < |pending| ==> pending[i].skill.name != name) && name in animations ==>
            FireAll(animations, pending)[name] == animations[name]
    decreases |pending|
  {
    if pending != [] {
      var n := |pending| - 1;
      var front := pending[..n];
      FireAllLevels(animations, front, name);
      forall i | 0 <= i < n ensures front[i] == pending[i] { }
    }
  }

  /**
   * Once every scheduled timeout has fired, starting from the empty map, the
   * bar of a skill whose name no other entry shares shows that skill's level.
   */
  lemma AnimatedBar(expertise: seq<Skill>, i: nat)
    requires i < |expertise|
    requires forall j :: 0 <= j < |expertise| && j != i ==> expertise[j].name != expertise[i].name
    ensures BarWidth(FireAll(map[], Schedule(expertise)), expertise[i].name) == expertise[i].level
  {
    FireAllLevels(map[], Schedule(expertise), expertise[i].name);
  }

  /** A name that no skill in the list carries keeps a bar of width 0. */
  lemma UnscheduledBar(expertise: seq<Skill>, name: string)
    requires forall k :: 0 <= k < |expertise| ==> expertise[k].name != name
    ensures BarWidth(FireAll(map[], Schedule(expertise)), name) == 0
  {
    FireAllLevels(map[], Schedule(expertise), name);
  }

  /** The `skillAnimations` state cell. */
  class SkillBars {
    var skillAnimations: map<string, int>

    /** `useState({})`: every bar starts at width 0. */
    constructor ()
      ensures skillAnimations == map[]
      ensures forall name :: BarWidth(skillAnimations, name) == 0
    {
      skillAnimations := map[];
    }

    /**
     * A skill's timeout fires: its key now holds its level and every other
     * key keeps its value (and presence).
     */
    method Fire(t: Timeout)
      modifies this
      ensures skillAnimations == Merge(old(skillAnimations), t.skill)
      ensures BarWidth(skillAnimations, t.skill.name) == t.skill.level
      ensures forall name :: name != t.skill.name ==>
                BarWidth(skillAnimations, name) == BarWidth(old(skillAnimations), name)
    {
      skillAnimations := skillAnimations[t.skill.name := t.skill.level];
    }
  }
}
