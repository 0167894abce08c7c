/**
  The rules of `core/management/commands/import_chiamogna.py`: the legacy
  rows of `persona`, `giro` and `ruolo` become Persona, Ramo, Giro, Turno and
  TurnoProprietario records. A created record is known by its position in the
  list of records of its kind, and the dictionaries of `handle` are maps from
  legacy keys to those positions.
*/
module Legacy {
  import opened Text
  import opened Wrappers
  import opened Sorting
  import opened Timedelta

  // ------------------------------------------------------------ _parse_hhmmss

  /** `raw or ""`. */
  function OrEmpty(raw: Option<string>): string {
    if raw.Some? then raw.value else ""
  }

  /** How an f-string shows `raw`. */
  function Shown(raw: Option<string>): string {
    if raw.Some? then raw.value else "None"
  }

  /** A minutes or seconds group `[0-5]\d`. */
  predicate Sexagesimal(t: string) {
    |t| == 2 && '0' <= t[0] <= '5' && IsDigit(t[1])
  }

  /** `s` is `\d+:[0-5]\d:[0-5]\d` from start to end, with its first colon at `k`. */
  predicate HHMMSSAt(s: string, k: nat) {
    0 < k && |s| == k + 6 && s[k] == ':' && s[k + 3] == ':'
    && AllDigits(s[..k]) && Sexagesimal(s[k + 1..k + 3]) && Sexagesimal(s[k + 4..])
  }

  /** The three groups as hours, minutes and seconds, in seconds. */
  function HHMMSSSeconds(s: string, k: nat): int
    requires HHMMSSAt(s, k)
  {
    DecimalValue(s[..k]) * 3600 + DecimalValue(s[k + 1..k + 3]) * 60 + DecimalValue(s[k + 4..])
  }

  /** The message of the `CommandError` for a time that is not `HH:MM:SS`. */
  function TimeError(raw: Option<string>, context: string): string {
    "Invalid time format '" + Shown(raw) + "' for " + context + ". Expected HH:MM:SS."
  }

  /**
    `_parse_hhmmss(raw, context=...)`, in seconds: the `CommandError` for
    text that is not `HH:MM:SS`, then `timedelta(hours=..., minutes=...,
    seconds=...)`, which overflows for too many hours. The greedy `\d+` stops
    at the first non-digit, which must be the first colon; the text is
    stripped, so `$` can only match at its end.
  */
  function ParseHHMMSS(raw: Option<string>, context: string): (r: Result<int>)
    ensures r.Err? ==> r.message == TimeError(raw, context) || r.message == OverflowMessage
  {
    var s := Strip(OrEmpty(raw));
    var k := LeadingDigits(s);
    if HHMMSSAt(s, k) then FromSeconds(HHMMSSSeconds(s, k)) else Err(TimeError(raw, context))
  }

  /**
    The parser accepts exactly the trimmed `HH:MM:SS` texts that fit a
    timedelta and reads `h * 3600 + m * 60 + s` seconds; longer ones
    overflow, and any other text is the `CommandError`.
  */
  lemma ParseHHMMSSExactly(raw: Option<string>, context: string)
    ensures ParseHHMMSS(raw, context).Ok? <==>
      exists k :: HHMMSSAt(Strip(OrEmpty(raw)), k) && HHMMSSSeconds(Strip(OrEmpty(raw)), k) < SecondsEnd
    ensures forall k :: HHMMSSAt(Strip(OrEmpty(raw)), k) ==>
      ParseHHMMSS(raw, context) == if HHMMSSSeconds(Strip(OrEmpty(raw)), k) < SecondsEnd
        then Ok(HHMMSSSeconds(Strip(OrEmpty(raw)), k)) else Err(OverflowMessage)
    ensures (forall k :: !HHMMSSAt(Strip(OrEmpty(raw)), k)) ==> ParseHHMMSS(raw, context) == Err(TimeError(raw, context))
  {
    var s := Strip(OrEmpty(raw));
    var n := LeadingDigits(s);
    forall k | HHMMSSAt(s, k)
      ensures k == n
    {
    }
    if HHMMSSAt(s, n) {
      FromSecondsNat(HHMMSSSeconds(s, n));
    }
  }

  /** A missing time is read as the empty text, which is refused. */
  lemma ParseHHMMSSNone(context: string)
    ensures ParseHHMMSS(None, context) == Err(TimeError(None, context))
    ensures ParseHHMMSS(Some(""), context).Err?
  {
  }

  /** The legacy database's `HH:MM:SS`: hours as at least two digits, minutes and seconds as two. */
  function ShownTime(h: nat, m: nat, sec: nat): string {
    Pad2(h) + ":" + Pad2(m) + ":" + Pad2(sec)
  }

  /** That text is `HH:MM:SS` with its first colon after the hours, worth `h * 3600 + m * 60 + sec` seconds. */
  lemma ShownTimeParts(h: nat, m: nat, sec: nat, total: int)
    requires m < 60 && sec < 60 && total == h * 3600 + m * 60 + sec
    ensures HHMMSSAt(ShownTime(h, m, sec), |Pad2(h)|)
    ensures HHMMSSSeconds(ShownTime(h, m, sec), |Pad2(h)|) == total
  {
    var hs, ms, ss := Pad2(h), Pad2(m), Pad2(sec);
    var s := ShownTime(h, m, sec);
    Pad2Reads(h);
    Pad2Reads(m);
    Pad2Reads(sec);
    Pad2Below60(m);
    Pad2Below60(sec);
    var k := |hs|;
    assert s[..k] == hs;
    assert s[k + 1..k + 3] == ms;
    assert s[k + 4..] == ss;
  }

  /** That text has no whitespace to strip. */
  lemma ShownTimeTrimmed(h: nat, m: nat, sec: nat)
    requires m < 60 && sec < 60
    ensures Strip(ShownTime(h, m, sec)) == ShownTime(h, m, sec)
  {
    var s := ShownTime(h, m, sec);
    Pad2Reads(h);
    Pad2Below60(sec);
    assert s[0] == Pad2(h)[0] && s[|s| - 1] == Pad2(sec)[1];
    StripTrimmed(s);
  }

  lemma ParsedTrimmed(s: string, k: nat, context: string)
    requires Strip(s) == s && HHMMSSAt(s, k) && HHMMSSSeconds(s, k) < SecondsEnd
    ensures ParseHHMMSS(Some(s), context) == Ok(HHMMSSSeconds(s, k))
  {
    ParseHHMMSSExactly(Some(s), context);
  }

  /** A time written as the legacy database writes it reads back as that many seconds. */
  lemma ParseHHMMSSShown(h: nat, m: nat, sec: nat, total: int, context: string)
    requires m < 60 && sec < 60 && total == h * 3600 + m * 60 + sec && total < SecondsEnd
    ensures ParseHHMMSS(Some(ShownTime(h, m, sec)), context) == Ok(total)
  {
    ShownTimeParts(h, m, sec, total);
    ShownTimeTrimmed(h, m, sec);
    ParsedTrimmed(ShownTime(h, m, sec), |Pad2(h)|, context);
  }

  // ------------------------------------------------------------ rows and records

  datatype PersonaRow = PersonaRow(id: int, nome: Option<string>)
  datatype GiroRow = GiroRow(id: int, ramo: string, tipo: string, ordine: int, utilizzatore: int)
  datatype RuoloRow = RuoloRow(id: int, giro: int, utente: int, intervallo: Option<string>)

  datatype Persona = Persona(nome: string, cognome: string)
  datatype Giro = Giro(nome: string, ordine: int, ramo: nat)
  datatype Turno = Turno(utilizzatore: nat, ordine: int, giro: nat)
  datatype TurnoProprietario = TurnoProprietario(turno: nat, proprietario: nat, tempo: int)

  /** A dictionary filled in order from `keys[i] -> i`: each key maps to its last position. */
  function LastIndex<K>(keys: seq<K>): map<K, nat>
    decreases |keys|
  {
    if keys == [] then map[] else LastIndex(keys[..|keys| - 1])[keys[|keys| - 1] := |keys| - 1]
  }

  lemma {:induction false} LastIndexIs<K>(keys: seq<K>)
    ensures forall k :: k in LastIndex(keys) <==> k in keys
    ensures forall k :: k in LastIndex(keys) ==>
      LastIndex(keys)[k] < |keys| && keys[LastIndex(keys)[k]] == k
      && forall j :: LastIndex(keys)[k] < j < |keys| ==> keys[j] != k
    decreases |keys|
  {
    if keys != [] {
      var init := keys[..|keys| - 1];
      LastIndexIs(init);
      assert keys == init + [keys[|keys| - 1]];
    }
  }

  /** In a sequence without repetitions, each key maps to its own position. */
  lemma LastIndexDistinct<K>(keys: seq<K>, i: nat)
    requires i < |keys| && Distinct(keys)
    ensures keys[i] in LastIndex(keys) && LastIndex(keys)[keys[i]] == i
  {
    LastIndexIs(keys);
  }

  lemma LastIndexSnoc<K>(keys: seq<K>, i: nat)
    requires i < |keys|
    ensures LastIndex(keys[..i + 1]) == LastIndex(keys[..i])[keys[i] := i]
  {
    assert keys[..i + 1][..i] == keys[..i];
  }

  // ------------------------------------------------------------ persone

  /** `(row["nome"] or "").strip() or "-"`. */
  function Cognome(nome: Option<string>): string {
    var s := Strip(OrEmpty(nome));
    if s == [] then "-" else s
  }

  function PersonaIds(rows: seq<PersonaRow>): (ids: seq<int>)
    ensures |ids| == |rows| && forall i :: 0 <= i < |rows| ==> ids[i] == rows[i].id
  {
    seq(|rows|, i requires 0 <= i < |rows| => rows[i].id)
  }

  /** The Persona of a legacy row: named "-", with the trimmed legacy name (or "-") as surname. */
  function PersonaOf(row: PersonaRow): Persona {
    Persona("-", Cognome(row.nome))
  }

  /** One Persona per row. */
  function PersoneOf(rows: seq<PersonaRow>): seq<Persona>
    decreases |rows|
  {
    if rows == [] then [] else PersoneOf(rows[..|rows| - 1]) + [PersonaOf(rows[|rows| - 1])]
  }

  /** The Persona of each row is at that row's position. */
  lemma {:induction false} PersoneOfAre(rows: seq<PersonaRow>)
    ensures |PersoneOf(rows)| == |rows|
    ensures forall i :: 0 <= i < |rows| ==> PersoneOf(rows)[i] == PersonaOf(rows[i])
    decreases |rows|
  {
    if rows != [] {
      var init := rows[..|rows| - 1];
      PersoneOfAre(init);
      forall i | 0 <= i < |init| ensures PersoneOf(rows)[i] == PersonaOf(rows[i]) {
        assert init[i] == rows[i];
      }
    }
  }

  lemma PersoneOfSnoc(rows: seq<PersonaRow>, i: nat)
    requires i < |rows|
    ensures PersoneOf(rows[..i + 1]) == PersoneOf(rows[..i]) + [PersonaOf(rows[i])]
  {
    assert rows[..i + 1][..i] == rows[..i];
  }

  /**
    The first loop of `handle`: the Persona records, and
    `legacy_persona_to_new` from each legacy id to its Persona.
  */
  method ImportPersone(rows: seq<PersonaRow>) returns (persone: seq<Persona>, personaOf: map<int, nat>)
    ensures persone == PersoneOf(rows)
    ensures personaOf == LastIndex(PersonaIds(rows))
  {
    persone, personaOf := [], map[];
    var i := 0;
    while i < |rows|
      invariant i <= |rows|
      invariant persone == PersoneOf(rows[..i]) && |persone| == i
      invariant personaOf == LastIndex(PersonaIds(rows)[..i])
    {
      var row := rows[i];
      LastIndexSnoc(PersonaIds(rows), i);
      PersoneOfSnoc(rows, i);
      personaOf := personaOf[row.id := |persone|];
      persone := persone + [PersonaOf(row)];
      assert persone == PersoneOf(rows[..i + 1]);
      i := i + 1;
    }
    assert PersonaIds(rows)[..i] == PersonaIds(rows);
    assert rows[..i] == rows;
  }

  /** A surname is never empty and never has whitespace at either end. */
  lemma CognomeTrimmed(nome: Option<string>)
    ensures Cognome(nome) != [] && !IsSpace(Cognome(nome)[0]) && !IsSpace(Cognome(nome)[|Cognome(nome)| - 1])
  {
  }

  // ------------------------------------------------------------ rami

  /** `sorted({str(row["ramo_bealera"]).strip() for row in giro_rows})`. */
  function RamoNames(rows: seq<GiroRow>): seq<string> {
    SortSet(RamoSet(rows))
  }

  /** The trimmed ramo names found among the rows. */
  function RamoSet(rows: seq<GiroRow>): set<string> {
    set r | r in rows :: Strip(r.ramo)
  }

  /** The ramo names are sorted, distinct, trimmed, and exactly the trimmed names of the rows. */
  lemma RamoNamesAre(rows: seq<GiroRow>)
    ensures StrictlySorted(RamoNames(rows))
    ensures forall name :: name in RamoNames(rows) <==> exists r :: r in rows && Strip(r.ramo) == name
    ensures forall i :: 0 <= i < |RamoNames(rows)| ==> Strip(RamoNames(rows)[i]) == RamoNames(rows)[i]
  {
    var names := RamoNames(rows);
    forall i | 0 <= i < |names|
      ensures Strip(names[i]) == names[i]
    {
      assert names[i] in names;
      var r :| r in rows && Strip(r.ramo) == names[i];
      StripIdempotent(r.ramo);
    }
  }

  /** The ramo names are the only strictly sorted sequence of the rows' trimmed ramo names. */
  lemma RamoNamesUnique(rows: seq<GiroRow>, names: seq<string>)
    requires StrictlySorted(names)
    requires forall name :: name in names <==> exists r :: r in rows && Strip(r.ramo) == name
    ensures RamoNames(rows) == names
  {
    RamoNamesAre(rows);
    SortedUnique(RamoNames(rows), names);
  }

  lemma StripIdempotent(s: string)
    ensures Strip(Strip(s)) == Strip(s)
  {
    var t := Strip(s);
    if t != [] {
      StripTrimmed(t);
    }
  }

  /** The second loop of `handle`: one Ramo per name, and `ramo_map`. */
  method CreateRami(names: seq<string>) returns (rami: seq<string>, ramoOf: map<string, nat>)
    ensures rami == names
    ensures ramoOf == LastIndex(names)
  {
    rami, ramoOf := [], map[];
    var i := 0;
    while i < |names|
      invariant i <= |names|
      invariant rami == names[..i]
      invariant ramoOf == LastIndex(names[..i])
    {
      LastIndexSnoc(names, i);
      ramoOf := ramoOf[names[i] := |rami|];
      rami := rami + [names[i]];
      i := i + 1;
    }
    assert names[..i] == names;
  }

  // ------------------------------------------------------------ giri

  /** The trimmed giro types of the rows of one ramo. */
  function TipiOf(rows: seq<GiroRow>, ramo: string): set<string> {
    set r | r in rows && Strip(r.ramo) == ramo :: Strip(r.tipo)
  }

  /** One ramo's keys `(ramo, tipo)`, in the order of `tipi`. */
  function Keyed(ramo: string, tipi: seq<string>): (keys: seq<(string, string)>)
    ensures |keys| == |tipi| && forall j :: 0 <= j < |tipi| ==> keys[j] == (ramo, tipi[j])
  {
    seq(|tipi|, j requires 0 <= j < |tipi| => (ramo, tipi[j]))
  }

  /** The keys of `giro_map` in the order they are created: ramo by ramo, each ramo's types sorted. */
  function GiroKeys(names: seq<string>, rows: seq<GiroRow>): seq<(string, string)>
    decreases |names|
  {
    if names == [] then []
    else
      var last := names[|names| - 1];
      GiroKeys(names[..|names| - 1], rows) + Keyed(last, SortSet(TipiOf(rows, last)))
  }

  lemma GiroKeysSnoc(names: seq<string>, rows: seq<GiroRow>, i: nat)
    requires i < |names|
    ensures GiroKeys(names[..i + 1], rows) == GiroKeys(names[..i], rows) + Keyed(names[i], SortSet(TipiOf(rows, names[i])))
  {
    assert names[..i + 1][..i] == names[..i];
  }

  predicate IsFallback(tipo: string) {
    tipo != "A" && tipo != "B"
  }

  /** How many keys take their ordine from `tipo_order_fallback`. */
  function Fallbacks(keys: seq<(string, string)>): nat
    decreases |keys|
  {
    if keys == [] then 0
    else Fallbacks(keys[..|keys| - 1]) + (if IsFallback(keys[|keys| - 1].1) then 1 else 0)
  }

  /** The ordine of the giro of `keys[i]`: A is 1, B is 2, the others count on from 3 across all rami. */
  function OrdineAt(keys: seq<(string, string)>, i: nat): int
    requires i < |keys|
  {
    if keys[i].1 == "A" then 1
    else if keys[i].1 == "B" then 2
    else 3 + Fallbacks(keys[..i])
  }

  /** The giri created for `keys`, one per key, in order. */
  predicate GiriFor(giri: seq<Giro>, keys: seq<(string, string)>, ramoOf: map<string, nat>) {
    |giri| == |keys|
    && forall i :: 0 <= i < |keys| ==>
      keys[i].0 in ramoOf && giri[i] == Giro("Giro " + keys[i].1, OrdineAt(keys, i), ramoOf[keys[i].0])
  }

  lemma GiriForSnoc(giri: seq<Giro>, keys: seq<(string, string)>, ramoOf: map<string, nat>, key: (string, string), ordine: int)
    requires GiriFor(giri, keys, ramoOf) && key.0 in ramoOf
    requires ordine == if key.1 == "A" then 1 else if key.1 == "B" then 2 else 3 + Fallbacks(keys)
    ensures GiriFor(giri + [Giro("Giro " + key.1, ordine, ramoOf[key.0])], keys + [key], ramoOf)
  {
    var keys' := keys + [key];
    assert keys'[..|keys|] == keys;
    forall i | 0 <= i < |keys|
      ensures OrdineAt(keys', i) == OrdineAt(keys, i)
    {
      assert keys'[..i] == keys[..i];
    }
  }

  lemma KeyedSnoc(before: seq<(string, string)>, ramo: string, tipi: seq<string>, j: nat)
    requires j < |tipi|
    ensures before + Keyed(ramo, tipi[..j + 1]) == (before + Keyed(ramo, tipi[..j])) + [(ramo, tipi[j])]
  {
    assert Keyed(ramo, tipi[..j + 1]) == Keyed(ramo, tipi[..j]) + [(ramo, tipi[j])];
  }

  lemma LastIndexAppend<K>(keys: seq<K>, key: K)
    ensures LastIndex(keys + [key]) == LastIndex(keys)[key := |keys|]
  {
    assert (keys + [key])[..|keys|] == keys;
  }

  lemma FallbacksAppend(keys: seq<(string, string)>, key: (string, string))
    ensures Fallbacks(keys + [key]) == Fallbacks(keys) + if IsFallback(key.1) then 1 else 0
  {
    assert (keys + [key])[..|keys|] == keys;
  }

  lemma KeyedMember(ramo: string, tipi: seq<string>, k: (string, string))
    ensures k in Keyed(ramo, tipi) <==> k.0 == ramo && k.1 in tipi
  {
    if k.0 == ramo && k.1 in tipi {
      var j :| 0 <= j < |tipi| && tipi[j] == k.1;
      assert Keyed(ramo, tipi)[j] == k;
    }
  }

  /** The giro keys are exactly the pairs of a ramo name and a type found among that ramo's rows. */
  lemma {:induction false} GiroKeysMember(names: seq<string>, rows: seq<GiroRow>, k: (string, string))
    ensures k in GiroKeys(names, rows) <==> k.0 in names && k.1 in TipiOf(rows, k.0)
    decreases |names|
  {
    if names != [] {
      var init, last := names[..|names| - 1], names[|names| - 1];
      var tipi := SortSet(TipiOf(rows, last));
      GiroKeysMember(init, rows, k);
      KeyedMember(last, tipi, k);
      assert GiroKeys(names, rows) == GiroKeys(init, rows) + Keyed(last, tipi);
      assert k.0 in names <==> k.0 in init || k.0 == last by {
        assert names == init + [last];
      }
    }
  }

  /** A key of the rami before `last` is not one of `last`'s keys. */
  lemma KeyOfOtherRamo(init: seq<string>, rows: seq<GiroRow>, last: string, k: (string, string))
    requires last !in init && k in GiroKeys(init, rows)
    ensures k.0 != last
  {
    GiroKeysMember(init, rows, k);
  }

  /** No element of `s` occurs twice. */
  predicate Distinct<T(==)>(s: seq<T>) {
    forall a, b :: 0 <= a < b < |s| ==> s[a] != s[b]
  }

  /** Two sequences without repetitions and without a common element concatenate to one without repetitions. */
  lemma DistinctConcat<T>(p: seq<T>, q: seq<T>)
    requires Distinct(p) && Distinct(q) && forall x :: x in p ==> x !in q
    ensures Distinct(p + q)
  {
    forall a, b | 0 <= a < b < |p + q|
      ensures (p + q)[a] != (p + q)[b]
    {
      if b < |p| {
        assert (p + q)[a] == p[a] && (p + q)[b] == p[b];
      } else if a < |p| {
        assert (p + q)[a] == p[a] && (p + q)[b] == q[b - |p|];
        assert q[b - |p|] in q;
      } else {
        assert (p + q)[a] == q[a - |p|] && (p + q)[b] == q[b - |p|];
      }
    }
  }

  /** The last element of a sequence without repetitions does not occur before it. */
  lemma DistinctLast<T>(s: seq<T>)
    requires s != [] && Distinct(s)
    ensures s[|s| - 1] !in s[..|s| - 1]
  {
    var init := s[..|s| - 1];
    forall j | 0 <= j < |init| ensures init[j] != s[|s| - 1] {
      assert init[j] == s[j];
    }
  }

  /** One ramo's keys, made from sorted types, hold no key twice. */
  lemma KeyedDistinct(ramo: string, tipi: seq<string>)
    requires StrictlySorted(tipi)
    ensures Distinct(Keyed(ramo, tipi))
  {
    forall a, b | 0 <= a < b < |tipi| ensures Keyed(ramo, tipi)[a] != Keyed(ramo, tipi)[b] {
      SortedDistinct(tipi, a, b);
    }
  }

  /** Distinct ramo names give distinct giro keys: one Giro per ramo and type. */
  lemma {:induction false} GiroKeysDistinct(names: seq<string>, rows: seq<GiroRow>)
    requires Distinct(names)
    ensures Distinct(GiroKeys(names, rows))
    decreases |names|
  {
    if names != [] {
      var init, last := names[..|names| - 1], names[|names| - 1];
      assert Distinct(init) by {
        forall a, b | 0 <= a < b < |init| ensures init[a] != init[b] {
          assert init[a] == names[a] && init[b] == names[b];
        }
      }
      GiroKeysDistinct(init, rows);
      DistinctLast(names);
      var tipi := SortSet(TipiOf(rows, last));
      KeyedDistinct(last, tipi);
      forall x | x in GiroKeys(init, rows) ensures x !in Keyed(last, tipi) {
        KeyOfOtherRamo(init, rows, last, x);
        KeyedMember(last, tipi, x);
      }
      DistinctConcat(GiroKeys(init, rows), Keyed(last, tipi));
    }
  }

  /** The number of fallback keys up to `j` counts every fallback key before it. */
  lemma {:induction false} FallbacksGrow(keys: seq<(string, string)>, i: nat, j: nat)
    requires i < j <= |keys| && IsFallback(keys[i].1)
    ensures Fallbacks(keys[..j]) >= Fallbacks(keys[..i]) + 1
    decreases j
  {
    assert keys[..j][..j - 1] == keys[..j - 1];
    if j - 1 > i {
      FallbacksGrow(keys, i, j - 1);
    } else {
      assert keys[..j][j - 1] == keys[i];
    }
  }

  lemma {:induction false} FallbacksMonotone(keys: seq<(string, string)>, i: nat, j: nat)
    requires i <= j <= |keys|
    ensures Fallbacks(keys[..j]) >= Fallbacks(keys[..i])
    decreases j
  {
    if i < j {
      assert keys[..j][..j - 1] == keys[..j - 1];
      FallbacksMonotone(keys, i, j - 1);
    }
  }

  /**
    Types other than A and B take ordini 3, 4, ... in creation order, across
    all rami, so no two of them share one.
  */
  lemma FallbackOrdini(keys: seq<(string, string)>, i: nat, j: nat)
    requires i < j < |keys| && IsFallback(keys[i].1) && IsFallback(keys[j].1)
    ensures 3 <= OrdineAt(keys, i) < OrdineAt(keys, j)
  {
    FallbacksGrow(keys, i, j);
  }

  /** The ordine of a giro is 1 for type A, 2 for type B and at least 3 for any other type. */
  lemma OrdineByType(keys: seq<(string, string)>, i: nat)
    requires i < |keys|
    ensures OrdineAt(keys, i) == 1 <==> keys[i].1 == "A"
    ensures OrdineAt(keys, i) == 2 <==> keys[i].1 == "B"
    ensures OrdineAt(keys, i) >= 3 <==> IsFallback(keys[i].1)
    ensures IsFallback(keys[i].1) ==> OrdineAt(keys, i) == 3 + Fallbacks(keys[..i])
  {
  }

  /** Every giro row finds its key in `giro_map`, since the keys are made from the same rows. */
  lemma RowKeysCovered(rows: seq<GiroRow>)
    ensures forall r :: r in rows ==> KeyOf(r) in LastIndex(GiroKeys(RamoNames(rows), rows))
  {
    var names := RamoNames(rows);
    RamoNamesAre(rows);
    LastIndexIs(GiroKeys(names, rows));
    forall r | r in rows
      ensures KeyOf(r) in GiroKeys(names, rows)
    {
      assert Strip(r.ramo) in names;
      assert Strip(r.tipo) in TipiOf(rows, Strip(r.ramo));
      GiroKeysMember(names, rows, KeyOf(r));
    }
  }

  /** The giri loop's state after the keys `keys`: the giri, `giro_map` and the fallback counter. */
  predicate GiriState(giri: seq<Giro>, giroOf: map<(string, string), nat>, fallback: int,
                      keys: seq<(string, string)>, ramoOf: map<string, nat>)
  {
    fallback == 3 + Fallbacks(keys) && GiriFor(giri, keys, ramoOf) && giroOf == LastIndex(keys)
  }

  /** The inner loop of the third loop of `handle`: the giri of one ramo. */
  method CreateGiriOfRamo(name: string, tipi: seq<string>, ramoOf: map<string, nat>,
                          giri: seq<Giro>, giroOf: map<(string, string), nat>, fallback: int,
                          ghost keys: seq<(string, string)>)
    returns (giri': seq<Giro>, giroOf': map<(string, string), nat>, fallback': int)
    requires name in ramoOf && GiriState(giri, giroOf, fallback, keys, ramoOf)
    ensures GiriState(giri', giroOf', fallback', keys + Keyed(name, tipi), ramoOf)
  {
    giri', giroOf', fallback' := giri, giroOf, fallback;
    ghost var done := keys;
    var j := 0;
    while j < |tipi|
      invariant j <= |tipi|
      invariant done == keys + Keyed(name, tipi[..j])
      invariant GiriState(giri', giroOf', fallback', done, ramoOf)
    {
      var tipo := tipi[j];
      var ordine;
      if tipo == "A" {
        ordine := 1;
      } else if tipo == "B" {
        ordine := 2;
      } else {
        ordine := fallback';
        fallback' := fallback' + 1;
      }
      GiriForSnoc(giri', done, ramoOf, (name, tipo), ordine);
      KeyedSnoc(keys, name, tipi, j);
      LastIndexAppend(done, (name, tipo));
      FallbacksAppend(done, (name, tipo));
      giroOf' := giroOf'[(name, tipo) := |giri'|];
      giri' := giri' + [Giro("Giro " + tipo, ordine, ramoOf[name])];
      done := done + [(name, tipo)];
      j := j + 1;
    }
    assert tipi[..j] == tipi;
  }

  /**
    The third loop of `handle`: one Giro per ramo and type, with its ordine
    from the type (the fallback counter is shared by all rami), and `giro_map`.
  */
  method CreateGiri(names: seq<string>, rows: seq<GiroRow>, ramoOf: map<string, nat>)
    returns (giri: seq<Giro>, giroOf: map<(string, string), nat>)
    requires forall name :: name in names ==> name in ramoOf
    ensures GiriFor(giri, GiroKeys(names, rows), ramoOf)
    ensures giroOf == LastIndex(GiroKeys(names, rows))
  {
    giri, giroOf := [], map[];
    var fallback := 3;
    var i := 0;
    while i < |names|
      invariant i <= |names|
      invariant GiriState(giri, giroOf, fallback, GiroKeys(names[..i], rows), ramoOf)
    {
      assert names[i] in names;
      GiroKeysSnoc(names, rows, i);
      giri, giroOf, fallback := CreateGiriOfRamo(names[i], SortSet(TipiOf(rows, names[i])), ramoOf,
                                                 giri, giroOf, fallback, GiroKeys(names[..i], rows));
      i := i + 1;
    }
    assert names[..i] == names;
  }

  // ------------------------------------------------------------ turni

  /** The values of `used` at or above `from`. */
  function Above(used: set<int>, from: int): set<int> {
    set k | k in used && k >= from
  }

  lemma AboveShrinks(used: set<int>, from: int)
    requires from in used
    ensures |Above(used, from + 1)| < |Above(used, from)|
  {
    assert Above(used, from) == Above(used, from + 1) + {from};
  }

  /**
    `ordine = requested; while ordine in used: ordine += 1`: the least value
    at or above `from` that is not used yet.
  */
  function SmallestFree(used: set<int>, from: int): (r: int)
    ensures r >= from && r !in used
    ensures forall k :: from <= k < r ==> k in used
    decreases |Above(used, from)|
  {
    if from in used then
      AboveShrinks(used, from);
      SmallestFree(used, from + 1)
    else from
  }

  /** The free value found is the only one that is not used while everything between it and `from` is. */
  lemma SmallestFreeUnique(used: set<int>, from: int, x: int)
    requires x >= from && x !in used && forall k :: from <= k < x ==> k in used
    ensures x == SmallestFree(used, from)
  {
    var r := SmallestFree(used, from);
    assert !(from <= x < r) && !(from <= r < x);
  }

  /** A free requested value is kept. */
  lemma SmallestFreeKeeps(used: set<int>, from: int)
    ensures SmallestFree(used, from) == from <==> from !in used
  {
  }

  /** The inner `while` loop of the turni loop. */
  method NextFree(used: set<int>, requested: int) returns (ordine: int)
    ensures ordine == SmallestFree(used, requested)
  {
    ordine := requested;
    while ordine in used
      invariant SmallestFree(used, ordine) == SmallestFree(used, requested)
      decreases |Above(used, ordine)|
    {
      AboveShrinks(used, ordine);
      ordine := ordine + 1;
    }
  }

  /**
    The state of the turni loop: the Turno records, `legacy_giro_to_turno`,
    `used_ordini_by_giro` and the three counters.
  */
  datatype TurniState = TurniState(
    turni: seq<Turno>,
    turnoOf: map<int, nat>,
    used: map<nat, set<int>>,
    skippedUtilizzatore: nat,
    skippedGiroKey: nat,
    remapped: nat)

  /** `used_ordini_by_giro.setdefault(giro, set())`, read. */
  function UsedIn(used: map<nat, set<int>>, giro: nat): set<int> {
    if giro in used then used[giro] else {}
  }

  /** The key of `giro_map` a legacy giro row looks up. */
  function KeyOf(row: GiroRow): (string, string) {
    (Strip(row.ramo), Strip(row.tipo))
  }

  /** One pass of the turni loop. */
  function TurnoStep(personaOf: map<int, nat>, giroOf: map<(string, string), nat>, s: TurniState, row: GiroRow): TurniState {
    if row.utilizzatore !in personaOf then
      s.(skippedUtilizzatore := s.skippedUtilizzatore + 1)
    else if KeyOf(row) !in giroOf then
      s.(skippedGiroKey := s.skippedGiroKey + 1)
    else
      var giro := giroOf[KeyOf(row)];
      var ordine := SmallestFree(UsedIn(s.used, giro), row.ordine);
      TurniState(
        s.turni + [Turno(personaOf[row.utilizzatore], ordine, giro)],
        s.turnoOf[row.id := |s.turni|],
        s.used[giro := UsedIn(s.used, giro) + {ordine}],
        s.skippedUtilizzatore,
        s.skippedGiroKey,
        if ordine != row.ordine then s.remapped + 1 else s.remapped)
  }

  /** The turni loop over `rows`, in order. */
  function TurniFrom(personaOf: map<int, nat>, giroOf: map<(string, string), nat>, rows: seq<GiroRow>): TurniState
    decreases |rows|
  {
    if rows == [] then TurniState([], map[], map[], 0, 0, 0)
    else TurnoStep(personaOf, giroOf, TurniFrom(personaOf, giroOf, rows[..|rows| - 1]), rows[|rows| - 1])
  }

  lemma TurniFromSnoc(personaOf: map<int, nat>, giroOf: map<(string, string), nat>, rows: seq<GiroRow>, i: nat)
    requires i < |rows|
    ensures TurniFrom(personaOf, giroOf, rows[..i + 1]) == TurnoStep(personaOf, giroOf, TurniFrom(personaOf, giroOf, rows[..i]), rows[i])
  {
    assert rows[..i + 1][..i] == rows[..i];
  }

  /**
    One pass of the fourth loop of `handle`: a row whose persona or giro key
    is missing is counted and skipped; otherwise its ordine is moved up to the
    first one its giro does not use yet and a Turno is created.
  */
  method ImportTurno(personaOf: map<int, nat>, giroOf: map<(string, string), nat>, s: TurniState, row: GiroRow)
    returns (s': TurniState)
    ensures s' == TurnoStep(personaOf, giroOf, s, row)
  {
    var TurniState(turni, turnoOf, used, skippedUtilizzatore, skippedGiroKey, remapped) := s;
    var key := KeyOf(row);
    if row.utilizzatore !in personaOf {
      skippedUtilizzatore := skippedUtilizzatore + 1;
    } else if key !in giroOf {
      skippedGiroKey := skippedGiroKey + 1;
    } else {
      var giro := giroOf[key];
      var usedOrdini := if giro in used then used[giro] else {};
      var ordine := NextFree(usedOrdini, row.ordine);
      if ordine != row.ordine {
        remapped := remapped + 1;
      }
      used := used[giro := usedOrdini + {ordine}];
      turnoOf := turnoOf[row.id := |turni|];
      turni := turni + [Turno(personaOf[row.utilizzatore], ordine, giro)];
    }
    s' := TurniState(turni, turnoOf, used, skippedUtilizzatore, skippedGiroKey, remapped);
  }

  /** The fourth loop of `handle`, over the giro rows in order. */
  method ImportTurni(personaOf: map<int, nat>, giroOf: map<(string, string), nat>, rows: seq<GiroRow>)
    returns (s: TurniState)
    ensures s == TurniFrom(personaOf, giroOf, rows)
  {
    s := TurniState([], map[], map[], 0, 0, 0);
    var i := 0;
    while i < |rows|
      invariant i <= |rows|
      invariant s == TurniFrom(personaOf, giroOf, rows[..i])
    {
      TurniFromSnoc(personaOf, giroOf, rows, i);
      s := ImportTurno(personaOf, giroOf, s, rows[i]);
      i := i + 1;
    }
    assert rows[..i] == rows;
  }

  /**
    A row either creates one Turno or is skipped; a skipped row adds one to
    exactly one of the two skip counters and changes nothing else.
  */
  lemma TurnoStepCounts(personaOf: map<int, nat>, giroOf: map<(string, string), nat>, s: TurniState, row: GiroRow)
    ensures var s' := TurnoStep(personaOf, giroOf, s, row);
      |s'.turni| + s'.skippedUtilizzatore + s'.skippedGiroKey == |s.turni| + s.skippedUtilizzatore + s.skippedGiroKey + 1
      && |s'.turni| >= |s.turni| && s'.skippedUtilizzatore >= s.skippedUtilizzatore && s'.skippedGiroKey >= s.skippedGiroKey
    ensures var s' := TurnoStep(personaOf, giroOf, s, row);
      |s'.turni| == |s.turni| <==> row.utilizzatore !in personaOf || KeyOf(row) !in giroOf
    ensures var s' := TurnoStep(personaOf, giroOf, s, row);
      s'.skippedUtilizzatore > s.skippedUtilizzatore <==> row.utilizzatore !in personaOf
    ensures var s' := TurnoStep(personaOf, giroOf, s, row);
      |s'.turni| == |s.turni| ==>
        s'.turni == s.turni && s'.turnoOf == s.turnoOf && s'.used == s.used && s'.remapped == s.remapped
  {
  }

  /** Every giro row is counted once: as a Turno or as one of the two kinds of skip. */
  lemma {:induction false} TurniCounts(personaOf: map<int, nat>, giroOf: map<(string, string), nat>, rows: seq<GiroRow>)
    ensures var s := TurniFrom(personaOf, giroOf, rows);
      |s.turni| + s.skippedUtilizzatore + s.skippedGiroKey == |rows|
    ensures TurniFrom(personaOf, giroOf, rows).remapped <= |TurniFrom(personaOf, giroOf, rows).turni|
    decreases |rows|
  {
    if rows != [] {
      var init := rows[..|rows| - 1];
      TurniCounts(personaOf, giroOf, init);
      TurnoStepCounts(personaOf, giroOf, TurniFrom(personaOf, giroOf, init), rows[|rows| - 1]);
    }
  }

  /**
    An imported row gets the least free ordine at or above the one it asks
    for, its giro's used ordini gain exactly that value, the other giri's are
    unchanged, and the remap counter grows exactly when the ordine moved.
  */
  lemma TurnoStepRemaps(personaOf: map<int, nat>, giroOf: map<(string, string), nat>, s: TurniState, row: GiroRow)
    requires row.utilizzatore in personaOf && KeyOf(row) in giroOf
    ensures var s', giro := TurnoStep(personaOf, giroOf, s, row), giroOf[KeyOf(row)];
      |s'.turni| == |s.turni| + 1
      && s'.turni[|s.turni|].giro == giro
      && s'.turni[|s.turni|].utilizzatore == personaOf[row.utilizzatore]
      && s'.turnoOf == s.turnoOf[row.id := |s.turni|]
    ensures var s', giro := TurnoStep(personaOf, giroOf, s, row), giroOf[KeyOf(row)];
      var ordine := s'.turni[|s.turni|].ordine;
      ordine >= row.ordine && ordine !in UsedIn(s.used, giro)
      && (forall k :: row.ordine <= k < ordine ==> k in UsedIn(s.used, giro))
      && UsedIn(s'.used, giro) == UsedIn(s.used, giro) + {ordine}
      && (forall g :: g != giro ==> UsedIn(s'.used, g) == UsedIn(s.used, g))
      && (s'.remapped == s.remapped + 1 <==> ordine != row.ordine)
      && (s'.remapped == s.remapped <==> ordine == row.ordine)
  {
  }

  // ------------------------------------------------------------ turni invariants

  /** The ordini of the turni of one giro. */
  function OrdiniOf(turni: seq<Turno>, giro: nat): set<int> {
    set i | 0 <= i < |turni| && turni[i].giro == giro :: turni[i].ordine
  }

  /**
    What the turni loop keeps: `used_ordini_by_giro` holds exactly the ordini
    of each giro's turni, no two turni of a giro share an ordine, and
    `legacy_giro_to_turno` points at created turni.
  */
  ghost predicate TurniValid(s: TurniState) {
    (forall giro :: UsedIn(s.used, giro) == OrdiniOf(s.turni, giro))
    && (forall i, j :: 0 <= i < j < |s.turni| && s.turni[i].giro == s.turni[j].giro ==> s.turni[i].ordine != s.turni[j].ordine)
    && (forall id :: id in s.turnoOf ==> s.turnoOf[id] < |s.turni|)
  }

  lemma OrdiniOfSnoc(turni: seq<Turno>, t: Turno, giro: nat)
    ensures OrdiniOf(turni + [t], giro) == OrdiniOf(turni, giro) + (if t.giro == giro then {t.ordine} else {})
  {
    var turni' := turni + [t];
    forall x | x in OrdiniOf(turni', giro)
      ensures x in OrdiniOf(turni, giro) + (if t.giro == giro then {t.ordine} else {})
    {
      var i :| 0 <= i < |turni'| && turni'[i].giro == giro && turni'[i].ordine == x;
      if i < |turni| {
        assert turni[i] == turni'[i];
      }
    }
    forall x | x in OrdiniOf(turni, giro)
      ensures x in OrdiniOf(turni', giro)
    {
      var i :| 0 <= i < |turni| && turni[i].giro == giro && turni[i].ordine == x;
      assert turni'[i] == turni[i];
    }
    if t.giro == giro {
      assert turni'[|turni|] == t;
    }
  }

  lemma TurnoStepValid(personaOf: map<int, nat>, giroOf: map<(string, string), nat>, s: TurniState, row: GiroRow)
    requires TurniValid(s)
    ensures TurniValid(TurnoStep(personaOf, giroOf, s, row))
  {
    if row.utilizzatore in personaOf && KeyOf(row) in giroOf {
      var s' := TurnoStep(personaOf, giroOf, s, row);
      var t := s'.turni[|s.turni|];
      assert s'.turni == s.turni + [t];
      forall giro
        ensures UsedIn(s'.used, giro) == OrdiniOf(s'.turni, giro)
      {
        OrdiniOfSnoc(s.turni, t, giro);
      }
      forall i | 0 <= i < |s.turni| && s.turni[i].giro == t.giro
        ensures s.turni[i].ordine != t.ordine
      {
        assert s.turni[i].ordine in OrdiniOf(s.turni, t.giro);
      }
    }
  }

  /** The turni loop keeps its invariant from the empty state on. */
  lemma {:induction false} TurniFromValid(personaOf: map<int, nat>, giroOf: map<(string, string), nat>, rows: seq<GiroRow>)
    ensures TurniValid(TurniFrom(personaOf, giroOf, rows))
    decreases |rows|
  {
    if rows == [] {
      forall giro
        ensures UsedIn(map[], giro) == OrdiniOf([], giro)
      {
      }
    } else {
      var init := rows[..|rows| - 1];
      TurniFromValid(personaOf, giroOf, init);
      TurnoStepValid(personaOf, giroOf, TurniFrom(personaOf, giroOf, init), rows[|rows| - 1]);
    }
  }

  /** When every row's key has a giro, no row is skipped for a missing giro key. */
  lemma {:induction false} NoMissingGiroKey(personaOf: map<int, nat>, giroOf: map<(string, string), nat>, rows: seq<GiroRow>)
    requires forall r :: r in rows ==> KeyOf(r) in giroOf
    ensures TurniFrom(personaOf, giroOf, rows).skippedGiroKey == 0
    decreases |rows|
  {
    if rows != [] {
      var init := rows[..|rows| - 1];
      assert forall r :: r in init ==> r in rows;
      assert rows[|rows| - 1] in rows;
      NoMissingGiroKey(personaOf, giroOf, init);
    }
  }

  // ------------------------------------------------------------ ruoli

  /** The state of the ruoli loop: the TurnoProprietario records and the two counters. */
  datatype RuoliState = RuoliState(assegnati: seq<TurnoProprietario>, skippedTurno: nat, skippedProprietario: nat)

  /** `f"ruolo id={ruolo_id}"`. */
  function RuoloContext(row: RuoloRow): string {
    "ruolo id=" + IntText(row.id)
  }

  /** `_parse_hhmmss(str(row["intervallo_tempo"]), ...)`: a NULL time is the text "None". */
  function RuoloTempo(row: RuoloRow): Result<int> {
    ParseHHMMSS(Some(Shown(row.intervallo)), RuoloContext(row))
  }

  /**
    One pass of the ruoli loop, given what reading its time gave: a bad time
    stops the import; a row without an imported turno, then one without a
    persona, is counted and skipped.
  */
  function RuoloStep(personaOf: map<int, nat>, turnoOf: map<int, nat>, s: RuoliState, row: RuoloRow, tempo: Result<int>)
    : Result<RuoliState>
  {
    match tempo
    case Err(e) => Err(e)
    case Ok(t) =>
      if row.giro !in turnoOf then Ok(s.(skippedTurno := s.skippedTurno + 1))
      else if row.utente !in personaOf then Ok(s.(skippedProprietario := s.skippedProprietario + 1))
      else Ok(s.(assegnati := s.assegnati + [TurnoProprietario(turnoOf[row.giro], personaOf[row.utente], t)]))
  }

  /**
    A row whose time reads is counted exactly once: as a TurnoProprietario of
    its turno and persona, or, when one of the two was not imported, under the
    first of the two skip counters that applies.
  */
  lemma RuoloStepCounts(personaOf: map<int, nat>, turnoOf: map<int, nat>, s: RuoliState, row: RuoloRow, t: int)
    ensures var r := RuoloStep(personaOf, turnoOf, s, row, Ok(t));
      r.Ok? && |r.value.assegnati| + r.value.skippedTurno + r.value.skippedProprietario
        == |s.assegnati| + s.skippedTurno + s.skippedProprietario + 1
    ensures var r := RuoloStep(personaOf, turnoOf, s, row, Ok(t)).value;
      (r.skippedTurno == s.skippedTurno + 1 <==> row.giro !in turnoOf)
      && (r.skippedProprietario == s.skippedProprietario + 1 <==> row.giro in turnoOf && row.utente !in personaOf)
      && (|r.assegnati| == |s.assegnati| + 1 <==> row.giro in turnoOf && row.utente in personaOf)
    ensures var r := RuoloStep(personaOf, turnoOf, s, row, Ok(t)).value;
      row.giro in turnoOf && row.utente in personaOf ==>
        r.assegnati == s.assegnati + [TurnoProprietario(turnoOf[row.giro], personaOf[row.utente], t)]
    ensures RuoloStep(personaOf, turnoOf, s, row, Err(TimeError(Some(Shown(row.intervallo)), RuoloContext(row))))
      == Err(TimeError(Some(Shown(row.intervallo)), RuoloContext(row)))
  {
  }

  /** The ruoli loop over `rows`, whose times read as `tempi`, stopping at the first error. */
  function RuoliOver(personaOf: map<int, nat>, turnoOf: map<int, nat>, rows: seq<RuoloRow>, tempi: seq<Result<int>>)
    : Result<RuoliState>
    requires |tempi| == |rows|
    decreases |rows|
  {
    if rows == [] then Ok(RuoliState([], 0, 0))
    else
      match RuoliOver(personaOf, turnoOf, rows[..|rows| - 1], tempi[..|rows| - 1])
      case Err(e) => Err(e)
      case Ok(s) => RuoloStep(personaOf, turnoOf, s, rows[|rows| - 1], tempi[|rows| - 1])
  }

  /** The times of the rows, as `_parse_hhmmss` reads them. */
  function TempiOf(rows: seq<RuoloRow>): (tempi: seq<Result<int>>)
    ensures |tempi| == |rows|
  {
    seq(|rows|, i requires 0 <= i < |rows| => RuoloTempo(rows[i]))
  }

  /** The ruoli loop over `rows`, in order. */
  function RuoliFrom(personaOf: map<int, nat>, turnoOf: map<int, nat>, rows: seq<RuoloRow>): Result<RuoliState> {
    RuoliOver(personaOf, turnoOf, rows, TempiOf(rows))
  }

  lemma RuoliOverSnoc(personaOf: map<int, nat>, turnoOf: map<int, nat>, rows: seq<RuoloRow>, tempi: seq<Result<int>>, i: nat, s: RuoliState)
    requires |tempi| == |rows| && i < |rows| && RuoliOver(personaOf, turnoOf, rows[..i], tempi[..i]) == Ok(s)
    ensures RuoliOver(personaOf, turnoOf, rows[..i + 1], tempi[..i + 1]) == RuoloStep(personaOf, turnoOf, s, rows[i], tempi[i])
  {
    assert rows[..i + 1][..i] == rows[..i];
    assert tempi[..i + 1][..i] == tempi[..i];
  }

  lemma RuoliOverStep(personaOf: map<int, nat>, turnoOf: map<int, nat>, rows: seq<RuoloRow>, tempi: seq<Result<int>>, i: nat,
                      s: RuoliState, step: Result<RuoliState>)
    requires TempiAre(rows, tempi) && i < |rows| && RuoliOver(personaOf, turnoOf, rows[..i], tempi[..i]) == Ok(s)
    requires step == RuoloStep(personaOf, turnoOf, s, rows[i], RuoloTempo(rows[i]))
    ensures RuoliOver(personaOf, turnoOf, rows[..i + 1], tempi[..i + 1]) == step
  {
    RuoliOverSnoc(personaOf, turnoOf, rows, tempi, i, s);
  }

  /** Once a prefix of the rows has failed, the whole loop fails with the same error. */
  lemma {:induction false} RuoliOverErrStays(personaOf: map<int, nat>, turnoOf: map<int, nat>, rows: seq<RuoloRow>, tempi: seq<Result<int>>, i: nat)
    requires |tempi| == |rows| && i <= |rows| && RuoliOver(personaOf, turnoOf, rows[..i], tempi[..i]).Err?
    ensures RuoliOver(personaOf, turnoOf, rows, tempi) == RuoliOver(personaOf, turnoOf, rows[..i], tempi[..i])
    decreases |rows|
  {
    if i == |rows| {
      assert rows[..i] == rows && tempi[..i] == tempi;
    } else {
      var n := |rows| - 1;
      assert rows[..n][..i] == rows[..i] && tempi[..n][..i] == tempi[..i];
      RuoliOverErrStays(personaOf, turnoOf, rows[..n], tempi[..n], i);
    }
  }

  /** The loop succeeds exactly when every time reads. */
  lemma {:induction false} RuoliOverOk(personaOf: map<int, nat>, turnoOf: map<int, nat>, rows: seq<RuoloRow>, tempi: seq<Result<int>>)
    requires |tempi| == |rows|
    ensures RuoliOver(personaOf, turnoOf, rows, tempi).Ok? <==> forall i :: 0 <= i < |tempi| ==> tempi[i].Ok?
    decreases |rows|
  {
    if rows != [] {
      var n := |rows| - 1;
      RuoliOverOk(personaOf, turnoOf, rows[..n], tempi[..n]);
      assert forall i :: 0 <= i < n ==> tempi[..n][i] == tempi[i];
    }
  }

  /** A loop that succeeds counts every row once, as a TurnoProprietario or as one kind of skip. */
  lemma {:induction false} RuoliOverCounts(personaOf: map<int, nat>, turnoOf: map<int, nat>, rows: seq<RuoloRow>, tempi: seq<Result<int>>)
    requires |tempi| == |rows|
    ensures var r := RuoliOver(personaOf, turnoOf, rows, tempi);
      r.Ok? ==> |r.value.assegnati| + r.value.skippedTurno + r.value.skippedProprietario == |rows|
    decreases |rows|
  {
    if rows != [] {
      var n := |rows| - 1;
      RuoliOverCounts(personaOf, turnoOf, rows[..n], tempi[..n]);
    }
  }

  /** Time `i` is the first one that does not read. */
  predicate FirstErr(tempi: seq<Result<int>>, i: int) {
    0 <= i < |tempi| && tempi[i].Err? && forall j :: 0 <= j < i ==> tempi[j].Ok?
  }

  /** A failed loop reports the error of the first time that does not read. */
  lemma {:induction false} RuoliOverFirstError(personaOf: map<int, nat>, turnoOf: map<int, nat>, rows: seq<RuoloRow>, tempi: seq<Result<int>>)
    requires |tempi| == |rows| && RuoliOver(personaOf, turnoOf, rows, tempi).Err?
    ensures exists i :: FirstErr(tempi, i) && RuoliOver(personaOf, turnoOf, rows, tempi).message == tempi[i].message
    decreases |rows|
  {
    var n := |rows| - 1;
    var front := tempi[..n];
    if RuoliOver(personaOf, turnoOf, rows[..n], front).Err? {
      RuoliOverFirstError(personaOf, turnoOf, rows[..n], front);
      var i :| FirstErr(front, i) && RuoliOver(personaOf, turnoOf, rows[..n], front).message == front[i].message;
      assert forall j :: 0 <= j <= i ==> front[j] == tempi[j];
      assert FirstErr(tempi, i);
    } else {
      RuoliOverOk(personaOf, turnoOf, rows[..n], front);
      assert forall j :: 0 <= j < n ==> front[j] == tempi[j];
      assert FirstErr(tempi, n);
    }
  }

  /** `tempi` holds what reading each row's time gives. */
  predicate TempiAre(rows: seq<RuoloRow>, tempi: seq<Result<int>>) {
    |tempi| == |rows|
    && forall i {:trigger RuoloTempo(rows[i])} :: 0 <= i < |rows| ==> tempi[i] == RuoloTempo(rows[i])
  }

  lemma TempiOfAre(rows: seq<RuoloRow>)
    ensures TempiAre(rows, TempiOf(rows))
  {
  }

  /** One pass of the fifth loop of `handle`. */
  method ImportRuolo(personaOf: map<int, nat>, turnoOf: map<int, nat>, s: RuoliState, row: RuoloRow)
    returns (r: Result<RuoliState>)
    ensures r == RuoloStep(personaOf, turnoOf, s, row, RuoloTempo(row))
  {
    var tempo := ParseHHMMSS(Some(Shown(row.intervallo)), "ruolo id=" + IntText(row.id));
    if tempo.Err? {
      return Err(tempo.message);
    }
    if row.giro !in turnoOf {
      return Ok(s.(skippedTurno := s.skippedTurno + 1));
    }
    if row.utente !in personaOf {
      return Ok(s.(skippedProprietario := s.skippedProprietario + 1));
    }
    r := Ok(s.(assegnati := s.assegnati + [TurnoProprietario(turnoOf[row.giro], personaOf[row.utente], tempo.value)]));
  }

  /** The fifth loop of `handle`, over the ruolo rows in order; a `CommandError` ends it. */
  method ImportRuoli(personaOf: map<int, nat>, turnoOf: map<int, nat>, rows: seq<RuoloRow>, ghost tempi: seq<Result<int>>)
    returns (r: Result<RuoliState>)
    requires TempiAre(rows, tempi)
    ensures r == RuoliOver(personaOf, turnoOf, rows, tempi)
  {
    var s := RuoliState([], 0, 0);
    var i := 0;
    while i < |rows|
      invariant i <= |rows|
      invariant RuoliOver(personaOf, turnoOf, rows[..i], tempi[..i]) == Ok(s)
    {
      var step := ImportRuolo(personaOf, turnoOf, s, rows[i]);
      RuoliOverStep(personaOf, turnoOf, rows, tempi, i, s, step);
      if step.Err? {
        RuoliOverErrStays(personaOf, turnoOf, rows, tempi, i + 1);
        return step;
      }
      s := step.value;
      i := i + 1;
    }
    assert rows[..i] == rows && tempi[..i] == tempi;
    r := Ok(s);
  }

  /**
    The ruoli loop succeeds exactly when every row's time reads, and then
    counts every row once; when it fails, it reports the first row whose time
    does not read, with that row's message.
  */
  lemma RuoliOutcome(personaOf: map<int, nat>, turnoOf: map<int, nat>, rows: seq<RuoloRow>, tempi: seq<Result<int>>)
    requires TempiAre(rows, tempi)
    ensures RuoliOver(personaOf, turnoOf, rows, tempi).Ok? <==> forall i :: 0 <= i < |rows| ==> RuoloTempo(rows[i]).Ok?
    ensures var r := RuoliOver(personaOf, turnoOf, rows, tempi);
      r.Ok? ==> |r.value.assegnati| + r.value.skippedTurno + r.value.skippedProprietario == |rows|
    ensures var r := RuoliOver(personaOf, turnoOf, rows, tempi);
      r.Err? ==> exists i :: FirstErr(tempi, i) && RuoloTempo(rows[i]) == Err(r.message)
  {
    RuoliOverOk(personaOf, turnoOf, rows, tempi);
    RuoliOverCounts(personaOf, turnoOf, rows, tempi);
    if RuoliOver(personaOf, turnoOf, rows, tempi).Err? {
      RuoliOverFirstError(personaOf, turnoOf, rows, tempi);
      var i :| FirstErr(tempi, i) && RuoliOver(personaOf, turnoOf, rows, tempi).message == tempi[i].message;
      assert tempi[i] == RuoloTempo(rows[i]);
    }
  }

  // ------------------------------------------------------------ references

  /** Every value of `m` is below `n`: the map points at created records only. */
  predicate PointsBelow<K>(m: map<K, nat>, n: nat) {
    forall k :: k in m ==> m[k] < n
  }

  lemma LastIndexBelow<K>(keys: seq<K>)
    ensures PointsBelow(LastIndex(keys), |keys|)
  {
    LastIndexIs(keys);
  }

  predicate TurniBelow(turni: seq<Turno>, persone: nat, giri: nat) {
    forall i :: 0 <= i < |turni| ==> turni[i].utilizzatore < persone && turni[i].giro < giri
  }

  /** Every Turno names a created Persona and a created Giro. */
  lemma {:induction false} TurniRefer(personaOf: map<int, nat>, giroOf: map<(string, string), nat>, rows: seq<GiroRow>, persone: nat, giri: nat)
    requires PointsBelow(personaOf, persone) && PointsBelow(giroOf, giri)
    ensures TurniBelow(TurniFrom(personaOf, giroOf, rows).turni, persone, giri)
    decreases |rows|
  {
    if rows != [] {
      var init, row := rows[..|rows| - 1], rows[|rows| - 1];
      TurniRefer(personaOf, giroOf, init, persone, giri);
      var before := TurniFrom(personaOf, giroOf, init).turni;
      var after := TurniFrom(personaOf, giroOf, rows).turni;
      if row.utilizzatore in personaOf && KeyOf(row) in giroOf {
        assert after == before + [Turno(personaOf[row.utilizzatore], after[|before|].ordine, giroOf[KeyOf(row)])];
        assert personaOf[row.utilizzatore] < persone && giroOf[KeyOf(row)] < giri;
      } else {
        assert after == before;
        assert forall i :: 0 <= i < |after| ==> after[i] == before[i];
      }
    }
  }

  /** Every TurnoProprietario names a created Turno and a created Persona, and a time that is not negative. */
  lemma {:induction false} RuoliRefer(personaOf: map<int, nat>, turnoOf: map<int, nat>, rows: seq<RuoloRow>,
                                      tempi: seq<Result<int>>, persone: nat, turni: nat)
    requires |tempi| == |rows| && PointsBelow(personaOf, persone) && PointsBelow(turnoOf, turni)
    requires forall i :: 0 <= i < |tempi| && tempi[i].Ok? ==> tempi[i].value >= 0
    ensures var r := RuoliOver(personaOf, turnoOf, rows, tempi);
      r.Ok? ==> forall i :: 0 <= i < |r.value.assegnati| ==>
        r.value.assegnati[i].turno < turni && r.value.assegnati[i].proprietario < persone && r.value.assegnati[i].tempo >= 0
    decreases |rows|
  {
    if rows != [] {
      var n := |rows| - 1;
      assert forall i :: 0 <= i < n ==> tempi[..n][i] == tempi[i];
      RuoliRefer(personaOf, turnoOf, rows[..n], tempi[..n], persone, turni);
    }
  }

  /** A time that reads is not negative. */
  lemma TempiNonNegative(rows: seq<RuoloRow>, tempi: seq<Result<int>>)
    requires TempiAre(rows, tempi)
    ensures forall i :: 0 <= i < |tempi| && tempi[i].Ok? ==> tempi[i].value >= 0
  {
    forall i | 0 <= i < |tempi| && tempi[i].Ok?
      ensures tempi[i].value >= 0
    {
      assert tempi[i] == RuoloTempo(rows[i]);
    }
  }

  // ------------------------------------------------------------ handle

  /** The giri of `keys`, one per key, in order. */
  function GiriOf(keys: seq<(string, string)>, ramoOf: map<string, nat>): (giri: seq<Giro>)
    requires forall i :: 0 <= i < |keys| ==> keys[i].0 in ramoOf
    ensures GiriFor(giri, keys, ramoOf)
  {
    seq(|keys|, i requires 0 <= i < |keys| && keys[i].0 in ramoOf =>
      Giro("Giro " + keys[i].1, OrdineAt(keys, i), ramoOf[keys[i].0]))
  }

  /** The giri for a sequence of keys are determined by it. */
  lemma GiriForUnique(giri: seq<Giro>, keys: seq<(string, string)>, ramoOf: map<string, nat>)
    requires GiriFor(giri, keys, ramoOf)
    ensures giri == GiriOf(keys, ramoOf)
  {
  }

  /** Every giro key's ramo has a Ramo. */
  lemma KeysInRami(rows: seq<GiroRow>)
    ensures forall i :: 0 <= i < |GiroKeys(RamoNames(rows), rows)| ==>
      GiroKeys(RamoNames(rows), rows)[i].0 in LastIndex(RamoNames(rows))
  {
    var names, keys := RamoNames(rows), GiroKeys(RamoNames(rows), rows);
    LastIndexIs(names);
    forall i | 0 <= i < |keys|
      ensures keys[i].0 in names
    {
      GiroKeysMember(names, rows, keys[i]);
    }
  }

  /** The giri created for the giro rows. */
  function GiriOfRows(rows: seq<GiroRow>): seq<Giro> {
    KeysInRami(rows);
    GiriOf(GiroKeys(RamoNames(rows), rows), LastIndex(RamoNames(rows)))
  }

  /** What the command creates: Persona, Ramo, Giro, Turno and TurnoProprietario records, and its counters. */
  datatype Imported = Imported(persone: seq<Persona>, rami: seq<string>, giri: seq<Giro>, turni: TurniState, ruoli: RuoliState)

  /** The import from the three legacy tables, or the error (`CommandError` or `OverflowError`) that rolls it back. */
  function Import(personaRows: seq<PersonaRow>, giroRows: seq<GiroRow>, ruoloRows: seq<RuoloRow>): Result<Imported> {
    var personaOf := LastIndex(PersonaIds(personaRows));
    var names := RamoNames(giroRows);
    var keys := GiroKeys(names, giroRows);
    var turni := TurniFrom(personaOf, LastIndex(keys), giroRows);
    match RuoliFrom(personaOf, turni.turnoOf, ruoloRows)
    case Err(e) => Err(e)
    case Ok(ruoli) => Ok(Imported(PersoneOf(personaRows), names, GiriOfRows(giroRows), turni, ruoli))
  }

  /** The import part of `handle`, with the rows already read from the legacy database. */
  method Handle(personaRows: seq<PersonaRow>, giroRows: seq<GiroRow>, ruoloRows: seq<RuoloRow>) returns (r: Result<Imported>)
    ensures r == Import(personaRows, giroRows, ruoloRows)
  {
    var persone, personaOf := ImportPersone(personaRows);
    var names := RamoNames(giroRows);
    var rami, ramoOf := CreateRami(names);
    LastIndexIs(names);
    var giri, giroOf := CreateGiri(names, giroRows, ramoOf);
    var turni := ImportTurni(personaOf, giroOf, giroRows);
    TempiOfAre(ruoloRows);
    var ruoli := ImportRuoli(personaOf, turni.turnoOf, ruoloRows, TempiOf(ruoloRows));
    if ruoli.Err? {
      return Err(ruoli.message);
    }
    KeysInRami(giroRows);
    GiriForUnique(giri, GiroKeys(names, giroRows), ramoOf);
    assert giri == GiriOfRows(giroRows);
    r := Ok(Imported(persone, rami, giri, turni, ruoli.value));
  }

  /** The import fails exactly when a ruolo time does not read, and then reports the first such row. */
  lemma ImportFails(personaRows: seq<PersonaRow>, giroRows: seq<GiroRow>, ruoloRows: seq<RuoloRow>)
    ensures Import(personaRows, giroRows, ruoloRows).Ok? <==> forall i :: 0 <= i < |ruoloRows| ==> RuoloTempo(ruoloRows[i]).Ok?
    ensures var r := Import(personaRows, giroRows, ruoloRows);
      r.Err? ==> exists i :: FirstErr(TempiOf(ruoloRows), i) && RuoloTempo(ruoloRows[i]) == Err(r.message)
  {
    var personaOf := LastIndex(PersonaIds(personaRows));
    var turni := TurniFrom(personaOf, LastIndex(GiroKeys(RamoNames(giroRows), giroRows)), giroRows);
    TempiOfAre(ruoloRows);
    RuoliOutcome(personaOf, turni.turnoOf, ruoloRows, TempiOf(ruoloRows));
  }

  /**
    The turni created from the giro rows: every row is a Turno or a skip for
    a missing persona, never one for a missing giro key; the loop invariant
    holds; every Turno names a created Persona and Giro.
  */
  lemma TurniOutcome(personaRows: seq<PersonaRow>, giroRows: seq<GiroRow>)
    ensures var keys := GiroKeys(RamoNames(giroRows), giroRows);
      var t := TurniFrom(LastIndex(PersonaIds(personaRows)), LastIndex(keys), giroRows);
      |t.turni| + t.skippedUtilizzatore == |giroRows| && t.skippedGiroKey == 0
      && TurniValid(t) && TurniBelow(t.turni, |personaRows|, |keys|)
  {
    var personaOf := LastIndex(PersonaIds(personaRows));
    var keys := GiroKeys(RamoNames(giroRows), giroRows);
    var giroOf := LastIndex(keys);
    LastIndexBelow(keys);
    LastIndexBelow(PersonaIds(personaRows));
    TurniCounts(personaOf, giroOf, giroRows);
    RowKeysCovered(giroRows);
    NoMissingGiroKey(personaOf, giroOf, giroRows);
    TurniFromValid(personaOf, giroOf, giroRows);
    TurniRefer(personaOf, giroOf, giroRows, |personaRows|, |keys|);
  }

  /** One Giro per giro key, each of a created Ramo. */
  lemma GiriOutcome(giroRows: seq<GiroRow>)
    ensures |GiriOfRows(giroRows)| == |GiroKeys(RamoNames(giroRows), giroRows)|
    ensures forall i :: 0 <= i < |GiriOfRows(giroRows)| ==> GiriOfRows(giroRows)[i].ramo < |RamoNames(giroRows)|
  {
    LastIndexBelow(RamoNames(giroRows));
  }

  /** The Persona, Ramo and Giro records of an import that no ruolo time stops. */
  lemma ImportRecords(personaRows: seq<PersonaRow>, giroRows: seq<GiroRow>, ruoloRows: seq<RuoloRow>)
    requires Import(personaRows, giroRows, ruoloRows).Ok?
    ensures var im := Import(personaRows, giroRows, ruoloRows).value;
        |im.persone| == |personaRows|
        && (forall i :: 0 <= i < |im.persone| ==> im.persone[i] == Persona("-", Cognome(personaRows[i].nome)))
        && StrictlySorted(im.rami)
        && (forall name :: name in im.rami <==> exists row :: row in giroRows && Strip(row.ramo) == name)
        && (forall i :: 0 <= i < |im.giri| ==> im.giri[i].ramo < |im.rami|)
  {
    PersoneOfAre(personaRows);
    RamoNamesAre(giroRows);
    GiriOutcome(giroRows);
  }

  /** The Turno and TurnoProprietario records and the counters of an import that no ruolo time stops. */
  lemma ImportLinks(personaRows: seq<PersonaRow>, giroRows: seq<GiroRow>, ruoloRows: seq<RuoloRow>)
    requires Import(personaRows, giroRows, ruoloRows).Ok?
    ensures var im := Import(personaRows, giroRows, ruoloRows).value;
        |im.turni.turni| + im.turni.skippedUtilizzatore == |giroRows|
        && im.turni.skippedGiroKey == 0
        && TurniValid(im.turni)
        && TurniBelow(im.turni.turni, |im.persone|, |im.giri|)
        && |im.ruoli.assegnati| + im.ruoli.skippedTurno + im.ruoli.skippedProprietario == |ruoloRows|
  {
    PersoneOfAre(personaRows);
    var personaOf := LastIndex(PersonaIds(personaRows));
    var turni := TurniFrom(personaOf, LastIndex(GiroKeys(RamoNames(giroRows), giroRows)), giroRows);
    RuoliOverCounts(personaOf, turni.turnoOf, ruoloRows, TempiOf(ruoloRows));
    TurniOutcome(personaRows, giroRows);
    GiriOutcome(giroRows);
  }
}
