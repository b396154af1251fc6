/**
 * The agenda itself: people and appointments, the two in-memory lists that hold them, the
 * lookups List<T>.Exists, Find and FindAll perform on those lists, and the store operations
 * behind menu options a) to e).
 */
module Agenda {
  import opened Optional
  import opened Text
  import opened Int32Parse
  import opened DateTimes

  /** A registered person. The program never changes a Persona after creating it. */
  datatype Persona = Persona(id: int, nombre: string, telefono: string)

  /** An appointment of the person with id `personaId`. Never changed after creation either. */
  datatype Cita = Cita(personaId: int, fecha: DateTime, descripcion: string)

  /** personas.Exists(p => p.Id == id) */
  predicate HasId(ps: seq<Persona>, id: int)
  {
    exists i :: 0 <= i < |ps| && ps[i].id == id
  }

  predicate UniqueIds(ps: seq<Persona>)
  {
    forall i, j :: 0 <= i < j < |ps| ==> ps[i].id != ps[j].id
  }

  /** personas.Find(p => p.Id == id): the first person with that id, or nothing. */
  function Find(ps: seq<Persona>, id: int): (r: Option<Persona>)
    ensures r.Some? <==> HasId(ps, id)
    ensures r.Some? ==> r.value.id == id && r.value in ps
  {
    if ps == [] then None
    else if ps[0].id == id then Some(ps[0])
    else
      assert forall i :: 1 <= i < |ps| ==> ps[i] == ps[1..][i - 1];
      Find(ps[1..], id)
  }

  /** Find returns the person at the first position holding the id. */
  lemma {:induction false} FindFirst(ps: seq<Persona>, id: int, k: nat)
    requires k < |ps| && ps[k].id == id
    requires forall j :: 0 <= j < k ==> ps[j].id != id
    ensures Find(ps, id) == Some(ps[k])
  {
    if k > 0 {
      FindFirst(ps[1..], id, k - 1);
    }
  }

  /** With unique ids, the person Find returns is the only one with that id. */
  lemma FindUnique(ps: seq<Persona>, id: int, k: nat)
    requires UniqueIds(ps)
    requires k < |ps| && ps[k].id == id
    ensures Find(ps, id) == Some(ps[k])
  {
    forall j | 0 <= j < k ensures ps[j].id != id {
      assert ps[j].id != ps[k].id;
    }
    FindFirst(ps, id, k);
  }

  /** citas.FindAll(c => c.PersonaId == id): the appointments of one person, in list order. */
  function FindAll(cs: seq<Cita>, id: int): (r: seq<Cita>)
    ensures |r| <= |cs|
    ensures forall c :: c in r ==> c.personaId == id && c in cs
    ensures forall c :: c in cs && c.personaId == id ==> c in r
  {
    if cs == [] then []
    else
      var rest := FindAll(cs[..|cs| - 1], id);
      var last := cs[|cs| - 1];
      assert cs == cs[..|cs| - 1] + [last];
      if last.personaId == id then rest + [last] else rest
  }

  /** Appending an appointment extends the listing of its person and no other. */
  lemma FindAllAppend(cs: seq<Cita>, c: Cita, id: int)
    ensures FindAll(cs + [c], id) == FindAll(cs, id) + (if c.personaId == id then [c] else [])
  {
    assert (cs + [c])[..|cs|] == cs;
  }

  /** A person's listing is empty exactly when none of the appointments is theirs. */
  lemma FindAllEmpty(cs: seq<Cita>, id: int)
    ensures FindAll(cs, id) == [] <==> forall k :: 0 <= k < |cs| ==> cs[k].personaId != id
  {
    if FindAll(cs, id) != [] {
      var c := FindAll(cs, id)[0];
      assert c in FindAll(cs, id);
    }
  }

  /** The listing keeps the order of the list: it is the list at increasing positions. */
  lemma {:induction false} FindAllOrdered(cs: seq<Cita>, id: int) returns (idx: seq<nat>)
    ensures |idx| == |FindAll(cs, id)|
    ensures forall k :: 0 <= k < |idx| ==> idx[k] < |cs| && cs[idx[k]] == FindAll(cs, id)[k]
    ensures forall k, l :: 0 <= k < l < |idx| ==> idx[k] < idx[l]
  {
    if cs == [] {
      idx := [];
    } else {
      var init := cs[..|cs| - 1];
      var last := cs[|cs| - 1];
      assert cs == init + [last];
      var pre := FindAllOrdered(init, id);
      FindAllAppend(init, last, id);
      if last.personaId == id {
        idx := pre + [|cs| - 1];
      } else {
        idx := pre;
        assert FindAll(cs, id) == FindAll(init, id);
      }
    }
  }

  /** Each appointment of the person appears in the listing as often as it does in the list. */
  lemma {:induction false} FindAllCount(cs: seq<Cita>, id: int, c: Cita)
    requires c.personaId == id
    ensures multiset(FindAll(cs, id))[c] == multiset(cs)[c]
  {
    if cs != [] {
      var init := cs[..|cs| - 1];
      var last := cs[|cs| - 1];
      assert cs == init + [last];
      FindAllCount(init, id, c);
      FindAllAppend(init, last, id);
      if last.personaId != id {
        assert FindAll(cs, id) == FindAll(init, id);
      }
    }
  }

  /** One row of the appointment tables: the three columns as text. */
  datatype FilaCita = FilaCita(personaId: string, fecha: string, descripcion: string)

  /** The three columns of one appointment: the id as Int32.ToString writes it, the date as
      "yyyy-MM-dd HH:mm", and the description. */
  function Fila(c: Cita): FilaCita
  {
    FilaCita(Show(c.personaId), FormatFecha(c.fecha), c.descripcion)
  }

  /** The PersonaId and Fecha columns read back, through the program's own readers, as the
      appointment they show. */
  lemma FilaReadsBack(c: Cita, fallback: string -> Option<DateTime>)
    ensures ReadInt(Some(Fila(c).personaId)) == if InRange(c.personaId) then Parsed(c.personaId) else Overflow
    ensures Valid(c.fecha) ==> ParseDate(Fila(c).fecha) == Some(c.fecha)
    ensures Valid(c.fecha) ==> ReadDate(Some(Fila(c).fecha), fallback) == Some(c.fecha)
  {
    ReadIntShow(c.personaId);
    if Valid(c.fecha) {
      FormatThenParse(c.fecha);
      FormatThenRead(c.fecha, fallback);
    }
  }

  /** What a listing shows: the person asked for does not exist, there is nothing to list, or
      the rows. */
  datatype Listado<T> = NoSuchPersona | Empty | Rows(rows: seq<T>)

  /** The rows of an appointment table, one per appointment, in order. */
  function TablaOf(cs: seq<Cita>): seq<FilaCita>
  {
    seq(|cs|, k requires 0 <= k < |cs| => Fila(cs[k]))
  }

  /** What ListarPersonas shows for the list `ps`. */
  function PersonasListing(ps: seq<Persona>): Listado<Persona>
  {
    if ps == [] then Empty else Rows(ps)
  }

  /** What ListarTodasLasCitas shows for the list `cs`. */
  function CitasListing(cs: seq<Cita>): Listado<FilaCita>
  {
    if cs == [] then Empty else Rows(TablaOf(cs))
  }

  /** What ListarCitasPorPersona shows for the person `id`. */
  function CitasListingFor(ps: seq<Persona>, cs: seq<Cita>, id: int): Listado<FilaCita>
  {
    if !HasId(ps, id) then NoSuchPersona else CitasListing(FindAll(cs, id))
  }

  /** The listing of one person refuses an unknown id, is empty exactly when none of the
      appointments is that person's, and otherwise shows the person's appointments and only
      theirs, in the order they were created. */
  lemma CitasListingForMeans(ps: seq<Persona>, cs: seq<Cita>, id: int)
    ensures CitasListingFor(ps, cs, id) == NoSuchPersona <==> !HasId(ps, id)
    ensures CitasListingFor(ps, cs, id) == Empty <==>
              HasId(ps, id) && forall k :: 0 <= k < |cs| ==> cs[k].personaId != id
    ensures CitasListingFor(ps, cs, id).Rows? ==>
              |CitasListingFor(ps, cs, id).rows| == |FindAll(cs, id)| &&
              forall k :: 0 <= k < |FindAll(cs, id)| ==> CitasListingFor(ps, cs, id).rows[k] == Fila(FindAll(cs, id)[k])
  {
    FindAllEmpty(cs, id);
  }

  datatype Registro = Registered | DuplicateId

  datatype Reserva = Booked(persona: Persona) | PersonaNotFound

  /** Ids are unique and every appointment belongs to a registered person. */
  ghost predicate Consistent(ps: seq<Persona>, cs: seq<Cita>)
  {
    && UniqueIds(ps)
    && forall k :: 0 <= k < |cs| ==> HasId(ps, cs[k].personaId)
  }

  /** Registering a person under a free id keeps the lists consistent. */
  lemma ConsistentAddPersona(ps: seq<Persona>, cs: seq<Cita>, p: Persona)
    requires Consistent(ps, cs) && !HasId(ps, p.id)
    ensures Consistent(ps + [p], cs)
  {
    forall k | 0 <= k < |cs| ensures HasId(ps + [p], cs[k].personaId) {
      assert HasId(ps, cs[k].personaId);
      var i :| 0 <= i < |ps| && ps[i].id == cs[k].personaId;
      assert (ps + [p])[i] == ps[i];
    }
  }

  /** Booking for a registered person keeps the lists consistent. */
  lemma ConsistentAddCita(ps: seq<Persona>, cs: seq<Cita>, c: Cita)
    requires Consistent(ps, cs) && HasId(ps, c.personaId)
    ensures Consistent(ps, cs + [c])
  {
    forall k | 0 <= k < |cs| + 1 ensures HasId(ps, (cs + [c])[k].personaId) {
      if k < |cs| {
        assert (cs + [c])[k] == cs[k];
      }
    }
  }

  /** The program's two static lists. */
  class Store {
    var personas: seq<Persona>
    var citas: seq<Cita>

    ghost predicate Valid()
      reads this
    {
      Consistent(personas, citas)
    }

    constructor ()
      ensures Valid()
      ensures personas == [] && citas == []
    {
      personas := [];
      citas := [];
    }

    /** Option a): refused when the id is taken, otherwise the person is appended. */
    method RegistrarPersona(id: int, nombre: string, telefono: string) returns (o: Registro)
      requires Valid()
      modifies this
      ensures Valid()
      ensures o == DuplicateId <==> HasId(old(personas), id)
      ensures o == DuplicateId ==> personas == old(personas)
      ensures o == Registered ==> personas == old(personas) + [Persona(id, nombre, telefono)]
      ensures citas == old(citas)
    {
      if HasId(personas, id) {
        o := DuplicateId;
        return;
      }
      var p := Persona(id, nombre, telefono);
      ConsistentAddPersona(personas, citas, p);
      personas := personas + [p];
      o := Registered;
    }

    /** Option c): refused when no person has the id, otherwise the appointment is appended and
        the person it belongs to is returned. */
    method CrearCita(personaId: int, fecha: DateTime, descripcion: string) returns (o: Reserva)
      requires Valid()
      modifies this
      ensures Valid()
      ensures o == PersonaNotFound <==> !HasId(personas, personaId)
      ensures o == PersonaNotFound ==> citas == old(citas)
      ensures o.Booked? ==> o.persona.id == personaId && o.persona in personas
      ensures o.Booked? ==> forall p :: p in personas && p.id == personaId ==> p == o.persona
      ensures o.Booked? ==> citas == old(citas) + [Cita(personaId, fecha, descripcion)]
      ensures personas == old(personas)
    {
      var persona := Find(personas, personaId);
      if persona.None? {
        o := PersonaNotFound;
        return;
      }
      forall p | p in personas && p.id == personaId ensures p == persona.value {
        var k :| 0 <= k < |personas| && personas[k] == p;
        FindUnique(personas, personaId, k);
      }
      var c := Cita(personaId, fecha, descripcion);
      ConsistentAddCita(personas, citas, c);
      citas := citas + [c];
      o := Booked(persona.value);
    }

    /** Option b): every person, in registration order. */
    method ListarPersonas() returns (r: Listado<Persona>)
      ensures r == PersonasListing(personas)
    {
      if |personas| == 0 {
        return Empty;
      }
      var rows: seq<Persona> := [];
      for k := 0 to |personas|
        invariant rows == personas[..k]
      {
        rows := rows + [personas[k]];
      }
      assert personas[..|personas|] == personas;
      r := Rows(rows);
    }

    /** Option d): refused for an unknown person; otherwise that person's appointments. */
    method ListarCitasPorPersona(personaId: int) returns (r: Listado<FilaCita>)
      ensures r == CitasListingFor(personas, citas, personaId)
    {
      var persona := Find(personas, personaId);
      if persona.None? {
        return NoSuchPersona;
      }
      var citasPersona := FindAll(citas, personaId);
      if |citasPersona| == 0 {
        return Empty;
      }
      var rows := Tabla(citasPersona);
      r := Rows(rows);
    }

    /** Option e): every appointment. */
    method ListarTodasLasCitas() returns (r: Listado<FilaCita>)
      ensures r == CitasListing(citas)
    {
      if |citas| == 0 {
        return Empty;
      }
      var rows := Tabla(citas);
      r := Rows(rows);
    }
  }

  /** The foreach loop that writes one row per appointment. */
  method Tabla(cs: seq<Cita>) returns (rows: seq<FilaCita>)
    ensures rows == TablaOf(cs)
  {
    rows := [];
    for k := 0 to |cs|
      invariant rows == TablaOf(cs[..k])
    {
      TablaSnoc(cs, k);
      rows := rows + [Fila(cs[k])];
    }
    assert cs[..|cs|] == cs;
  }

  /** The table of one appointment is its row. */
  lemma TablaOne(c: Cita)
    ensures TablaOf([c]) == [Fila(c)]
  {
  }

  /** One more appointment adds its row at the end of the table. */
  lemma TablaSnoc(cs: seq<Cita>, k: nat)
    requires k < |cs|
    ensures TablaOf(cs[..k + 1]) == TablaOf(cs[..k]) + [Fila(cs[k])]
  {
  }

  /** Example: a second registration under id 1 is refused and leaves one person. */
  method RegistrationScenario() returns (second: Registro, people: nat)
    ensures second == DuplicateId && people == 1
  {
    var store := new Store();
    var first := store.RegistrarPersona(1, "Ana", "555-1111");
    assert store.personas == [Persona(1, "Ana", "555-1111")];
    assert store.personas[0].id == 1;
    second := store.RegistrarPersona(1, "Ana", "555-1111");
    people := |store.personas|;
  }

  /** Example: an appointment for person 1 on "2025-10-15 14:30" is created and is all that
      person's listing shows, and an appointment for the unknown person 99 is refused and changes
      nothing. */
  method BookingScenario() returns (booking: Reserva, refused: Reserva,
                                    listed: Listado<FilaCita>, all: Listado<FilaCita>)
    ensures booking == Booked(Persona(1, "Ana", "555-1111")) && refused == PersonaNotFound
    ensures listed == Rows([FilaCita("1", "2025-10-15 14:30", "Checkup")]) && all == listed
  {
    var store := new Store();
    var first := store.RegistrarPersona(1, "Ana", "555-1111");
    assert store.personas == [Persona(1, "Ana", "555-1111")];
    // OctoberExample: the date reader turns "2025-10-15 14:30" into this value.
    var fecha := DateTime(2025, 10, 15, 14, 30);
    assert store.personas[0].id == 1;
    booking := store.CrearCita(1, fecha, "Checkup");
    refused := store.CrearCita(99, fecha, "Checkup");
    var c := Cita(1, fecha, "Checkup");
    assert store.citas == [c];
    assert FindAll(store.citas, 1) == [c];
    FilaExample();
    TablaOne(c);
    assert HasId(store.personas, 1);
    listed := store.ListarCitasPorPersona(1);
    assert listed == Rows(TablaOf([c]));
    all := store.ListarTodasLasCitas();
  }

  /** The row the example appointment is listed as. */
  lemma FilaExample()
    ensures Fila(Cita(1, DateTime(2025, 10, 15, 14, 30), "Checkup")) == FilaCita("1", "2025-10-15 14:30", "Checkup")
  {
    assert Show(1) == "1";
    OctoberExample();
  }
}
