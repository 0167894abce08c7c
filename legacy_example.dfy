/**
  The legacy database of the importer's test with a duplicate ordine: three
  persone, four giro rows of which two ask for ordine 60 in the same giro.
  The ramo names are parameters `b` (BOSCHETTO) and `v` (VARDA): all that
  matters of them is that they are trimmed and that `b` sorts first.
*/
module LegacyExample {
  import opened Text
  import opened Wrappers
  import opened Sorting
  import opened Legacy

  const Persone := [PersonaRow(1, Some("Mario Rossi")), PersonaRow(2, Some("Luigi Bianchi")), PersonaRow(3, Some("Anna Verdi"))]

  /** `legacy_persona_to_new` of the three persone. */
  const PersonaOf: map<int, nat> := map[1 := 0, 2 := 1, 3 := 2]

  /** The giro rows, for the ramo names `b` and `v`. */
  function GiroRows(b: string, v: string): seq<GiroRow> {
    [GiroRow(10, b, "A", 30, 1), GiroRow(11, b, "A", 60, 2), GiroRow(12, v, "B", 40, 3), GiroRow(13, b, "A", 60, 3)]
  }

  /** `giro_map` once the two giri exist. */
  function GiroOf(b: string, v: string): map<(string, string), nat> {
    map[(b, "A") := 0, (v, "B") := 1]
  }

  predicate Trimmed(b: string, v: string) {
    Strip(b) == b && Strip(v) == v && Strip("A") == "A" && Strip("B") == "B"
  }

  /** The test's ramo names meet the requirement on `b` and `v`. */
  lemma ExampleNames()
    ensures Trimmed("BOSCHETTO", "VARDA") && Below("BOSCHETTO", "VARDA")
  {
    StripTrimmed("BOSCHETTO");
    StripTrimmed("VARDA");
    StripTrimmed("A");
    StripTrimmed("B");
  }

  lemma ExamplePersonaOf()
    ensures LastIndex(PersonaIds(Persone)) == PersonaOf
  {
    var ids := PersonaIds(Persone);
    assert ids == [1, 2, 3];
    assert ids[..0] == [];
    LastIndexSnoc(ids, 0);
    LastIndexSnoc(ids, 1);
    LastIndexSnoc(ids, 2);
    assert ids[..3] == ids;
  }

  lemma RowsAre(b: string, v: string, r: GiroRow)
    requires r in GiroRows(b, v)
    ensures r == GiroRow(10, b, "A", 30, 1) || r == GiroRow(11, b, "A", 60, 2) || r == GiroRow(12, v, "B", 40, 3) || r == GiroRow(13, b, "A", 60, 3)
  {
  }

  /** The set of trimmed ramo names of the rows. */
  lemma ExampleRamoSet(b: string, v: string)
    requires Trimmed(b, v)
    ensures RamoSet(GiroRows(b, v)) == {b, v}
  {
    var rows := GiroRows(b, v);
    assert Strip(rows[0].ramo) == b && Strip(rows[2].ramo) == v;
    forall r | r in rows
      ensures Strip(r.ramo) in {b, v}
    {
      RowsAre(b, v, r);
    }
  }

  /** The two rami, in order. */
  lemma ExampleRami(b: string, v: string)
    requires Trimmed(b, v) && Below(b, v)
    ensures RamoNames(GiroRows(b, v)) == [b, v]
  {
    ExampleRamoSet(b, v);
    SortTwo(b, v);
  }

  /** The trimmed types of one ramo are those of its rows. */
  lemma ExampleTipiSet(b: string, v: string)
    requires Trimmed(b, v) && b != v
    ensures TipiOf(GiroRows(b, v), b) == {"A"} && TipiOf(GiroRows(b, v), v) == {"B"}
  {
    var rows := GiroRows(b, v);
    assert Strip(rows[0].ramo) == b && Strip(rows[2].ramo) == v;
    forall r | r in rows
      ensures (Strip(r.ramo) == b ==> Strip(r.tipo) == "A") && (Strip(r.ramo) == v ==> Strip(r.tipo) == "B")
    {
      RowsAre(b, v, r);
    }
  }

  lemma SortOne(x: string)
    ensures SortSet({x}) == [x]
  {
    SortedUnique(SortSet({x}), [x]);
  }

  lemma SortTwo(b: string, v: string)
    requires Below(b, v)
    ensures SortSet({b, v}) == [b, v]
  {
    assert StrictlySorted([b, v]);
    assert forall x :: x in [b, v] <==> x in {b, v};
    SortedUnique(SortSet({b, v}), [b, v]);
  }

  /** One ramo's keys: the ramo with each of its types. */
  lemma KeysOfRamo(rows: seq<GiroRow>, names: seq<string>, i: nat, tipo: string)
    requires i < |names| && TipiOf(rows, names[i]) == {tipo}
    ensures GiroKeys(names[..i + 1], rows) == GiroKeys(names[..i], rows) + [(names[i], tipo)]
  {
    GiroKeysSnoc(names, rows, i);
    SortOne(tipo);
    assert Keyed(names[i], [tipo]) == [(names[i], tipo)];
  }

  lemma KeysOfTwo(rows: seq<GiroRow>, b: string, v: string)
    requires TipiOf(rows, b) == {"A"} && TipiOf(rows, v) == {"B"}
    ensures GiroKeys([b, v], rows) == [(b, "A"), (v, "B")]
  {
    var names := [b, v];
    assert names[..0] == [];
    KeysOfRamo(rows, names, 0, "A");
    assert GiroKeys(names[..1], rows) == [(b, "A")];
    KeysOfRamo(rows, names, 1, "B");
    assert names[..2] == names;
  }

  /** The keys of `giro_map`: one giro per ramo. */
  lemma ExampleKeys(b: string, v: string)
    requires Trimmed(b, v) && Below(b, v)
    ensures GiroKeys(RamoNames(GiroRows(b, v)), GiroRows(b, v)) == [(b, "A"), (v, "B")]
  {
    BelowIrreflexive(b);
    ExampleRami(b, v);
    ExampleTipiSet(b, v);
    KeysOfTwo(GiroRows(b, v), b, v);
  }

  /** The giri the keys get: `giro_map`. */
  lemma ExampleGiroOf(b: string, v: string)
    requires b != v
    ensures LastIndex([(b, "A"), (v, "B")]) == GiroOf(b, v)
  {
    var keys := [(b, "A"), (v, "B")];
    assert keys[..0] == [];
    LastIndexSnoc(keys, 0);
    LastIndexSnoc(keys, 1);
    assert keys[..2] == keys;
  }

  /** What the test looks at in the state of the turni loop. */
  predicate TurniAre(s: TurniState, turni: seq<Turno>, used0: set<int>, used1: set<int>, remapped: nat) {
    s.turni == turni && UsedIn(s.used, 0) == used0 && UsedIn(s.used, 1) == used1 && s.remapped == remapped
  }

  /** One pass of the turni loop for a row whose persona and giro exist. */
  lemma Placed(s: TurniState, giroOf: map<(string, string), nat>, row: GiroRow, giro: nat, ordine: int)
    requires row.utilizzatore in PersonaOf && KeyOf(row) in giroOf && giroOf[KeyOf(row)] == giro
    requires ordine == SmallestFree(UsedIn(s.used, giro), row.ordine)
    ensures var s' := TurnoStep(PersonaOf, giroOf, s, row);
      s'.turni == s.turni + [Turno(PersonaOf[row.utilizzatore], ordine, giro)]
      && UsedIn(s'.used, giro) == UsedIn(s.used, giro) + {ordine}
      && (forall g :: g != giro ==> UsedIn(s'.used, g) == UsedIn(s.used, g))
      && s'.remapped == if ordine != row.ordine then s.remapped + 1 else s.remapped
  {
  }

  /** The first row: ordine 30 is free in the first giro. */
  lemma Step1(s: TurniState, b: string, v: string)
    requires Trimmed(b, v) && b != v && TurniAre(s, [], {}, {}, 0)
    ensures TurniAre(TurnoStep(PersonaOf, GiroOf(b, v), s, GiroRows(b, v)[0]), [Turno(0, 30, 0)], {30}, {}, 0)
  {
    assert KeyOf(GiroRows(b, v)[0]) == (b, "A");
    SmallestFreeKeeps({}, 30);
    Placed(s, GiroOf(b, v), GiroRows(b, v)[0], 0, 30);
  }

  /** The second row: ordine 60 is free in the first giro. */
  lemma Step2(s: TurniState, b: string, v: string)
    requires Trimmed(b, v) && b != v && TurniAre(s, [Turno(0, 30, 0)], {30}, {}, 0)
    ensures TurniAre(TurnoStep(PersonaOf, GiroOf(b, v), s, GiroRows(b, v)[1]), [Turno(0, 30, 0), Turno(1, 60, 0)], {30, 60}, {}, 0)
  {
    assert KeyOf(GiroRows(b, v)[1]) == (b, "A");
    SmallestFreeKeeps({30}, 60);
    Placed(s, GiroOf(b, v), GiroRows(b, v)[1], 0, 60);
  }

  /** The row of the other ramo goes to the second giro and leaves the first giro's ordini alone. */
  lemma Step3(s: TurniState, b: string, v: string)
    requires Trimmed(b, v) && b != v && TurniAre(s, [Turno(0, 30, 0), Turno(1, 60, 0)], {30, 60}, {}, 0)
    ensures TurniAre(TurnoStep(PersonaOf, GiroOf(b, v), s, GiroRows(b, v)[2]), [Turno(0, 30, 0), Turno(1, 60, 0), Turno(2, 40, 1)], {30, 60}, {40}, 0)
  {
    assert KeyOf(GiroRows(b, v)[2]) == (v, "B");
    SmallestFreeKeeps({}, 40);
    Placed(s, GiroOf(b, v), GiroRows(b, v)[2], 1, 40);
  }

  /** The second row asking for 60 in the first giro gets 61, and counts as remapped. */
  lemma Step4(s: TurniState, b: string, v: string)
    requires Trimmed(b, v) && b != v && TurniAre(s, [Turno(0, 30, 0), Turno(1, 60, 0), Turno(2, 40, 1)], {30, 60}, {40}, 0)
    ensures TurniAre(TurnoStep(PersonaOf, GiroOf(b, v), s, GiroRows(b, v)[3]), [Turno(0, 30, 0), Turno(1, 60, 0), Turno(2, 40, 1), Turno(2, 61, 0)], {30, 60, 61}, {40}, 1)
  {
    assert KeyOf(GiroRows(b, v)[3]) == (b, "A");
    SmallestFreeUnique({30, 60}, 60, 61);
    Placed(s, GiroOf(b, v), GiroRows(b, v)[3], 0, 61);
  }

  lemma Turni1(b: string, v: string)
    requires Trimmed(b, v) && b != v
    ensures TurniAre(TurniFrom(PersonaOf, GiroOf(b, v), GiroRows(b, v)[..1]), [Turno(0, 30, 0)], {30}, {}, 0)
  {
    var rows, giroOf := GiroRows(b, v), GiroOf(b, v);
    assert rows[..0] == [];
    TurniFromSnoc(PersonaOf, giroOf, rows, 0);
    Step1(TurniFrom(PersonaOf, giroOf, rows[..0]), b, v);
  }

  lemma Turni2(b: string, v: string)
    requires Trimmed(b, v) && b != v
    ensures TurniAre(TurniFrom(PersonaOf, GiroOf(b, v), GiroRows(b, v)[..2]), [Turno(0, 30, 0), Turno(1, 60, 0)], {30, 60}, {}, 0)
  {
    var rows, giroOf := GiroRows(b, v), GiroOf(b, v);
    Turni1(b, v);
    TurniFromSnoc(PersonaOf, giroOf, rows, 1);
    Step2(TurniFrom(PersonaOf, giroOf, rows[..1]), b, v);
  }

  lemma Turni3(b: string, v: string)
    requires Trimmed(b, v) && b != v
    ensures TurniAre(TurniFrom(PersonaOf, GiroOf(b, v), GiroRows(b, v)[..3]), [Turno(0, 30, 0), Turno(1, 60, 0), Turno(2, 40, 1)], {30, 60}, {40}, 0)
  {
    var rows, giroOf := GiroRows(b, v), GiroOf(b, v);
    Turni2(b, v);
    TurniFromSnoc(PersonaOf, giroOf, rows, 2);
    Step3(TurniFrom(PersonaOf, giroOf, rows[..2]), b, v);
  }

  /** The turni loop over the four rows. */
  lemma Turni4(b: string, v: string)
    requires Trimmed(b, v) && b != v
    ensures TurniAre(TurniFrom(PersonaOf, GiroOf(b, v), GiroRows(b, v)[..4]), [Turno(0, 30, 0), Turno(1, 60, 0), Turno(2, 40, 1), Turno(2, 61, 0)], {30, 60, 61}, {40}, 1)
  {
    var rows, giroOf := GiroRows(b, v), GiroOf(b, v);
    Turni3(b, v);
    TurniFromSnoc(PersonaOf, giroOf, rows, 3);
    Step4(TurniFrom(PersonaOf, giroOf, rows[..3]), b, v);
  }

  lemma ExampleTurni(b: string, v: string)
    requires Trimmed(b, v) && b != v
    ensures TurniAre(TurniFrom(PersonaOf, GiroOf(b, v), GiroRows(b, v)), [Turno(0, 30, 0), Turno(1, 60, 0), Turno(2, 40, 1), Turno(2, 61, 0)], {30, 60, 61}, {40}, 1)
  {
    Turni4(b, v);
    assert GiroRows(b, v)[..4] == GiroRows(b, v);
  }

  /**
    The whole test import: the giro of ramo `b` and type A gets the ordini
    30, 60 and 61, in that order, and one ordine is remapped.
  */
  lemma ExampleOrdini(b: string, v: string)
    requires Trimmed(b, v) && Below(b, v)
    ensures var keys := GiroKeys(RamoNames(GiroRows(b, v)), GiroRows(b, v));
      var s := TurniFrom(LastIndex(PersonaIds(Persone)), LastIndex(keys), GiroRows(b, v));
      keys == [(b, "A"), (v, "B")]
      && s.turni == [Turno(0, 30, 0), Turno(1, 60, 0), Turno(2, 40, 1), Turno(2, 61, 0)]
      && s.remapped == 1
  {
    BelowIrreflexive(b);
    ExamplePersonaOf();
    ExampleKeys(b, v);
    ExampleGiroOf(b, v);
    ExampleTurni(b, v);
  }
}
