/**
 The recurrence set of a component (`rruleset_from_comp` in xandikos/icalendar.py; section
 3.8.5 of RFC 5545), and how a rule alone is read.
 */
module RuleSets {
  import opened Wrappers
  import opened Calendars
  import opened Recurrences
  import opened Occurrences

  /** How the text of a rule is read, given the DTSTART it is anchored on; and the sequence
      that the recurrence set of a component makes up. */
  datatype RuleParser = RuleParser(rule: (string, Value) -> Rule, ruleSet: Component -> Rule)

  function RuleText(m: Component, name: string): string {
    if name in m.props && m.props[name].Text? then m.props[name].text else ""
  }

  /** The RRULE alone. */
  function RuleOf(m: Component, parse: RuleParser): Rule
    requires IsRecurring(m)
  {
    parse.rule(RuleText(m, "RRULE"), m.props["DTSTART"])
  }

  /** The instants listed by EXDATE or RDATE. */
  function DatesOf(m: Component, name: string): seq<int> {
    if name in m.props && m.props[name].Instants? then m.props[name].ats else []
  }

  ghost predicate Excluded(m: Component, parse: RuleParser, o: int)
    requires IsRecurring(m)
  {
    || o in DatesOf(m, "EXDATE")
    || ("EXRULE" in m.props && parse.rule(RuleText(m, "EXRULE"), m.props["DTSTART"]).Occurs(o))
  }

  /** What the RRULE gives and RDATE adds, but for what EXDATE and EXRULE take away. */
  ghost predicate Recurs(m: Component, parse: RuleParser, o: int)
    requires IsRecurring(m)
  {
    (RuleOf(m, parse).Occurs(o) || o in DatesOf(m, "RDATE")) && !Excluded(m, parse, o)
  }

  /** Sequences are increasing, and that of a component is its recurrence set. */
  ghost predicate GoodParser(parse: RuleParser) {
    && (forall s, v :: parse.rule(s, v).Increasing())
    && (forall m :: IsRecurring(m) ==> parse.ruleSet(m).Increasing())
    && (forall m, o :: IsRecurring(m) ==> (parse.ruleSet(m).Occurs(o) <==> Recurs(m, parse, o)))
  }

  /** No dates are added to the rule or taken from it. */
  predicate RuleAlone(m: Component) { "EXDATE" !in m.props && "RDATE" !in m.props && "EXRULE" !in m.props }

  lemma AloneIsRule(m: Component, parse: RuleParser)
    requires GoodParser(parse) && IsRecurring(m) && RuleAlone(m)
    ensures forall o :: parse.ruleSet(m).Occurs(o) <==> RuleOf(m, parse).Occurs(o)
  {
    forall o ensures parse.ruleSet(m).Occurs(o) <==> RuleOf(m, parse).Occurs(o) {
      assert parse.ruleSet(m).Occurs(o) <==> Recurs(m, parse, o);
    }
  }
}
