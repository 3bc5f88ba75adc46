/**
 * Olympiad::assignAreas over the relation tables it touches: the olympiad_areas
 * pivot (one row per olympiad and area), the phases (found or created by name and
 * order) and the olympiad_area_phase links (found or created by olympiad-area and
 * phase). Rows are identified by their natural keys instead of surrogate ids.
 */
module Olympiads {
  import opened Php

  /** A phases row, identified by the two columns firstOrCreate looks it up by. */
  datatype Phase = Phase(name: string, order: int)

  /** An olympiad_areas row: (olympiad id, area id). */
  type OlympiadArea = (int, int)

  datatype Relations = Relations(
    olympiadAreas: set<OlympiadArea>,
    phases: set<Phase>,
    links: set<(OlympiadArea, Phase)>)

  datatype Outcome = Refused(message: string, status: int) | Assigned

  const AlreadyAssignedMessage: string := "One or more areas are already assigned to this olympiad"

  /** 'Fase ' . $i */
  function PhaseName(i: nat): string {
    "Fase " + NatToString(i)
  }

  /** The phase the inner loop finds or creates for index i. */
  function PhaseAt(i: nat): Phase {
    Phase(PhaseName(i), i)
  }

  /** Area::whereIn('name', $areaNames)->pluck('id'): the ids of the area rows, in
      table order, whose name is requested; names that match no area are ignored. */
  function Resolve(areas: seq<(string, int)>, names: seq<string>): seq<int> {
    if areas == [] then []
    else
      var a := areas[|areas| - 1];
      var init := Resolve(areas[..|areas| - 1], names);
      if a.0 in names then init + [a.1] else init
  }

  /** Some requested area is already attached to the olympiad. */
  predicate AnyAttached(r: Relations, olympiad: int, ids: seq<int>) {
    exists k :: 0 <= k < |ids| && (olympiad, ids[k]) in r.olympiadAreas
  }

  /** The pivot rows attach() inserts. */
  function Pairs(olympiad: int, ids: seq<int>): set<OlympiadArea> {
    if ids == [] then {} else Pairs(olympiad, ids[..|ids| - 1]) + {(olympiad, ids[|ids| - 1])}
  }

  /** The phases 'Fase 1' .. 'Fase n'. */
  function PhasesUpTo(n: int): set<Phase>
    decreases n
  {
    if n < 1 then {} else PhasesUpTo(n - 1) + {PhaseAt(n)}
  }

  /** The links of one olympiad-area to the phases 1 .. n. */
  function AreaLinks(oa: OlympiadArea, n: int): set<(OlympiadArea, Phase)>
    decreases n
  {
    if n < 1 then {} else AreaLinks(oa, n - 1) + {(oa, PhaseAt(n))}
  }

  /** The links of the olympiad-areas of `ids` to the phases 1 .. n. */
  function LinksFor(olympiad: int, ids: seq<int>, n: int): set<(OlympiadArea, Phase)> {
    if ids == [] then {}
    else LinksFor(olympiad, ids[..|ids| - 1], n) + AreaLinks((olympiad, ids[|ids| - 1]), n)
  }

  /** assignAreas: refused without any change when a requested area is attached
      already; otherwise every area is attached and, per area, each phase and link is
      found or created. Phases are only touched when some area was resolved. */
  function AssignOf(r: Relations, areas: seq<(string, int)>, olympiad: int, phases: int,
                    names: seq<string>): (Outcome, Relations)
  {
    var ids := Resolve(areas, names);
    if AnyAttached(r, olympiad, ids) then (Refused(AlreadyAssignedMessage, 400), r)
    else
      (Assigned, Relations(r.olympiadAreas + Pairs(olympiad, ids),
                           r.phases + (if ids == [] then {} else PhasesUpTo(phases)),
                           r.links + LinksFor(olympiad, ids, phases)))
  }

  /** The three tables, with the areas catalog that assignAreas only reads. */
  class Tables {
    var olympiadAreas: set<OlympiadArea>
    var phases: set<Phase>
    var links: set<(OlympiadArea, Phase)>
    const areas: seq<(string, int)>

    function State(): Relations
      reads this
    {
      Relations(olympiadAreas, phases, links)
    }

    constructor (start: Relations, catalog: seq<(string, int)>)
      ensures State() == start && areas == catalog
    {
      olympiadAreas := start.olympiadAreas;
      phases := start.phases;
      links := start.links;
      areas := catalog;
    }

    /** The inner for loop for one attached area: phases 1 .. n and their links. */
    method CreatePhases(olympiadArea: OlympiadArea, n: int)
      modifies this
      ensures olympiadAreas == old(olympiadAreas)
      ensures phases == old(phases) + PhasesUpTo(n)
      ensures links == old(links) + AreaLinks(olympiadArea, n)
    {
      ghost var phases0, links0 := phases, links;
      var i := 1;
      while i <= n
        invariant 1 <= i <= if n < 1 then 1 else n + 1
        invariant olympiadAreas == old(olympiadAreas)
        invariant phases == phases0 + PhasesUpTo(i - 1)
        invariant links == links0 + AreaLinks(olympiadArea, i - 1)
      {
        var phase := PhaseAt(i);
        phases := phases + {phase};
        links := links + {(olympiadArea, phase)};
        i := i + 1;
      }
    }

    /** assignAreas for the olympiad `olympiad` with `numberOfPhases` phases. */
    method AssignAreas(olympiad: int, numberOfPhases: int, names: seq<string>) returns (outcome: Outcome)
      modifies this
      ensures (outcome, State()) == AssignOf(old(State()), areas, olympiad, numberOfPhases, names)
    {
      var ids := Resolve(areas, names);
      if exists k :: 0 <= k < |ids| && (olympiad, ids[k]) in olympiadAreas {
        return Refused(AlreadyAssignedMessage, 400);
      }
      olympiadAreas := olympiadAreas + Pairs(olympiad, ids);
      ghost var attached := olympiadAreas;
      var k := 0;
      while k < |ids|
        invariant 0 <= k <= |ids|
        invariant olympiadAreas == attached
        invariant phases == old(phases) + (if k == 0 then {} else PhasesUpTo(numberOfPhases))
        invariant links == old(links) + LinksFor(olympiad, ids[..k], numberOfPhases)
      {
        assert ids[..k + 1][..k] == ids[..k];
        CreatePhases((olympiad, ids[k]), numberOfPhases);
        k := k + 1;
      }
      assert ids[..|ids|] == ids;
      outcome := Assigned;
    }
  }

  /** The pivot rows are exactly the olympiad with each resolved id. */
  lemma {:induction false} InPairs(olympiad: int, ids: seq<int>, oa: OlympiadArea)
    ensures oa in Pairs(olympiad, ids) <==> oa.0 == olympiad && oa.1 in ids
  {
    if ids != [] {
      InPairs(olympiad, ids[..|ids| - 1], oa);
      assert ids == ids[..|ids| - 1] + [ids[|ids| - 1]];
    }
  }

  /** The phases up to n are exactly 'Fase i' of order i for i in 1 .. n. */
  lemma {:induction false} InPhasesUpTo(n: int, p: Phase)
    ensures p in PhasesUpTo(n) <==> 1 <= p.order <= n && p == PhaseAt(p.order)
    decreases n
  {
    if n >= 1 {
      InPhasesUpTo(n - 1, p);
    }
  }

  /** The links of one olympiad-area are exactly those to the phases 1 .. n. */
  lemma {:induction false} InAreaLinks(oa: OlympiadArea, n: int, l: (OlympiadArea, Phase))
    ensures l in AreaLinks(oa, n) <==> l.0 == oa && 1 <= l.1.order <= n && l.1 == PhaseAt(l.1.order)
    decreases n
  {
    if n >= 1 {
      InAreaLinks(oa, n - 1, l);
    }
  }

  /** The links are exactly those of a resolved area to one of the phases 1 .. n. */
  lemma {:induction false} InLinksFor(olympiad: int, ids: seq<int>, n: int, l: (OlympiadArea, Phase))
    ensures l in LinksFor(olympiad, ids, n) <==>
      l.0.0 == olympiad && l.0.1 in ids && 1 <= l.1.order <= n && l.1 == PhaseAt(l.1.order)
  {
    if ids != [] {
      InLinksFor(olympiad, ids[..|ids| - 1], n, l);
      InAreaLinks((olympiad, ids[|ids| - 1]), n, l);
      assert ids == ids[..|ids| - 1] + [ids[|ids| - 1]];
    }
  }

  /** The resolved ids are exactly those of the area rows whose name is requested. */
  lemma {:induction false} InResolve(areas: seq<(string, int)>, names: seq<string>, id: int)
    ensures id in Resolve(areas, names) <==> exists a :: a in areas && a.0 in names && a.1 == id
  {
    if areas != [] {
      var init, a := areas[..|areas| - 1], areas[|areas| - 1];
      InResolve(init, names, id);
      assert areas == init + [a];
    }
  }

  /** A refusal happens exactly when a requested area is attached already, and then
      nothing changes. */
  lemma RefusedIff(r: Relations, areas: seq<(string, int)>, olympiad: int, phases: int, names: seq<string>)
    ensures var (outcome, r') := AssignOf(r, areas, olympiad, phases, names);
      (outcome.Refused? <==> AnyAttached(r, olympiad, Resolve(areas, names))) &&
      (outcome.Refused? ==> outcome.status == 400 && r' == r)
  {
  }

  /** Only existing areas whose name was requested get attached, and nothing attached
      before is lost. */
  lemma OnlyKnownAreas(r: Relations, areas: seq<(string, int)>, olympiad: int, phases: int,
                       names: seq<string>, oa: OlympiadArea)
    requires oa in AssignOf(r, areas, olympiad, phases, names).1.olympiadAreas
    requires oa !in r.olympiadAreas
    ensures oa.0 == olympiad && exists a :: a in areas && a.0 in names && a.1 == oa.1
  {
    InPairs(olympiad, Resolve(areas, names), oa);
    InResolve(areas, names, oa.1);
  }

  /** After a successful assignment every resolved area is attached, and for each such
      area and each i in 1 .. number_of_phases the phase 'Fase i' of order i exists and
      is linked to that olympiad-area. */
  lemma AssignedComplete(r: Relations, areas: seq<(string, int)>, olympiad: int, phases: int,
                         names: seq<string>, id: int, i: nat)
    requires AssignOf(r, areas, olympiad, phases, names).0 == Assigned
    requires id in Resolve(areas, names)
    requires 1 <= i <= phases
    ensures var r' := AssignOf(r, areas, olympiad, phases, names).1;
      (olympiad, id) in r'.olympiadAreas &&
      Phase("Fase " + NatToString(i), i) in r'.phases &&
      ((olympiad, id), Phase("Fase " + NatToString(i), i)) in r'.links
  {
    var ids := Resolve(areas, names);
    InPairs(olympiad, ids, (olympiad, id));
    InPhasesUpTo(phases, PhaseAt(i));
    InLinksFor(olympiad, ids, phases, ((olympiad, id), PhaseAt(i)));
  }

  /** Nothing else is linked: every new link joins a newly attached olympiad-area to
      one of the phases 1 .. number_of_phases. */
  lemma LinksExact(r: Relations, areas: seq<(string, int)>, olympiad: int, phases: int,
                   names: seq<string>, l: (OlympiadArea, Phase))
    requires l in AssignOf(r, areas, olympiad, phases, names).1.links
    requires l !in r.links
    ensures l.0 in AssignOf(r, areas, olympiad, phases, names).1.olympiadAreas
    ensures l.0 !in r.olympiadAreas
    ensures 1 <= l.1.order <= phases && l.1 == PhaseAt(l.1.order)
  {
    var ids := Resolve(areas, names);
    InLinksFor(olympiad, ids, phases, l);
    InPairs(olympiad, ids, l.0);
  }

  /** Different indices give different phase names. */
  lemma PhaseNamesDistinct(i: nat, j: nat)
    requires i != j
    ensures PhaseName(i) != PhaseName(j)
  {
    if PhaseName(i) == PhaseName(j) {
      assert NatToString(i) == PhaseName(i)[5..] == PhaseName(j)[5..] == NatToString(j);
      NatToStringInjective(i, j);
    }
  }
}
