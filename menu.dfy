/**
 * The console program around the store: the menu command read from a line, the retry loops
 * that read one value each, the handlers of options a) to e), and the main do-while loop.
 * The console is a finite sequence of lines: each ReadLine takes the next one, and `None`
 * stands for the null that ReadLine returns once the input is closed.
 */
module Menu {
  import opened Optional
  import opened Text
  import opened Int32Parse
  import opened DateTimes
  import opened Agenda

  datatype Command = Register | ListPeople | Book | ListFor | ListAll | Exit | Invalid

  /** The menu letter of each option. */
  function Key(c: Command): string
    requires c != Invalid
  {
    match c
    case Register => "a"
    case ListPeople => "b"
    case Book => "c"
    case ListFor => "d"
    case ListAll => "e"
    case Exit => "f"
  }

  /** (Console.ReadLine() ?? "").Trim().ToLower(): empty exactly for a blank or absent line, and
      otherwise as long as the trimmed line. */
  function Normalize(line: Line): (o: string)
    ensures o == "" <==> IsNullOrWhiteSpace(line)
    ensures |o| == |Trim(OrEmpty(line))|
  {
    ToLower(Trim(OrEmpty(line)))
  }

  /** The switch on the normalised line: one of the six letters selects its option, anything
      else (a blank or absent line included) is the invalid option. */
  function ParseCommand(line: Line): (c: Command)
    ensures c != Invalid ==> Normalize(line) == Key(c)
    ensures IsNullOrWhiteSpace(line) ==> c == Invalid
  {
    Select(Normalize(line))
  }

  /** The option a normalised line selects. */
  function Select(o: string): (c: Command)
    ensures c != Invalid ==> o == Key(c)
    ensures c == Invalid <==> forall k: Command :: k != Invalid ==> o != Key(k)
  {
    if |o| != 1 then Invalid
    else match o[0]
      case 'a' => Register
      case 'b' => ListPeople
      case 'c' => Book
      case 'd' => ListFor
      case 'e' => ListAll
      case 'f' => Exit
      case _ => Invalid
  }

  /** Every option is selected by its letter in either case, with any white space around it. */
  lemma ParseCommandKey(c: Command, w1: string, letter: string, w2: string)
    requires c != Invalid
    requires AllWhiteSpace(w1) && AllWhiteSpace(w2)
    requires |letter| == 1 && ToLower(letter) == Key(c)
    ensures ParseCommand(Some(w1 + letter + w2)) == c
  {
    assert ToLowerChar(letter[0]) == Key(c)[0];
    assert !IsWhiteSpace(letter[0]);
    TrimPadded(w1, letter, w2);
    assert Normalize(Some(w1 + letter + w2)) == Key(c);
    SelectKey(c);
  }

  /** Each option's own letter selects it. */
  lemma SelectKey(c: Command)
    requires c != Invalid
    ensures Select(Key(c)) == c
  {
  }

  /** An absent line (end of input) is the invalid option, never the exit. */
  lemma ParseCommandNull()
    ensures ParseCommand(None) == Invalid
  {
    assert Trim("") == "";
    assert ToLower("") == "";
  }

  /** LeerEntero's attempt: the integer, or nothing after either of its two error messages. */
  function IntLine(line: Line): (r: Option<int>)
    ensures r.Some? <==> ReadInt(line).Parsed?
    ensures r.Some? ==> r.value == ReadInt(line).value && InRange(r.value)
    ensures r.Some? ==> line.Some? && Denotes(Trim(line.value), r.value)
    ensures forall v :: line.Some? && InRange(v) && Denotes(Trim(line.value), v) ==> r == Some(v)
  {
    ReadIntMeans(line);
    match ReadInt(line)
    case Parsed(v) => Some(v)
    case _ => None
  }

  /** LeerFecha's attempt, with `fallback` standing for DateTime.TryParse. */
  function DateLine(fallback: string -> Option<DateTime>): Line -> Option<DateTime>
  {
    line => ReadDate(line, fallback)
  }

  /** The result of a retry loop started at line `from`: the first line that `parse` accepts and
      the position after it, or nothing and the end of the input when no line is accepted. */
  function Retry<T>(input: seq<Line>, from: nat, parse: Line -> Option<T>): (r: (Option<T>, nat))
    requires from <= |input|
    ensures from <= r.1 <= |input|
    ensures r.0.Some? ==> from < r.1 && parse(input[r.1 - 1]) == r.0
    ensures r.0.None? ==> r.1 == |input|
    decreases |input| - from, 1
  {
    if from == |input| then (None, from) else Attempt(input, from, parse)
  }

  /** One pass of a retry loop: the line at `from` is accepted, or the loop goes on after it. */
  function Attempt<T>(input: seq<Line>, from: nat, parse: Line -> Option<T>): (r: (Option<T>, nat))
    requires from < |input|
    ensures from < r.1 <= |input|
    ensures r.0.Some? ==> parse(input[r.1 - 1]) == r.0
    ensures r.0.None? ==> r.1 == |input|
    decreases |input| - from, 0
  {
    if parse(input[from]).Some? then (parse(input[from]), from + 1) else Retry(input, from + 1, parse)
  }

  /** The lines a retry loop skips are exactly the ones `parse` refuses: every line before the one
      it stops at, or every line to the end of the input when it finds none. */
  lemma {:induction false} RetrySkipsRefused<T>(input: seq<Line>, from: nat, parse: Line -> Option<T>)
    requires from <= |input|
    ensures var r := Retry(input, from, parse);
      forall k :: from <= k < r.1 - 1 || (r.0.None? && from <= k < |input|) ==> parse(input[k]).None?
    decreases |input| - from
  {
    if from < |input| {
      assert Retry(input, from, parse) == Attempt(input, from, parse);
      if parse(input[from]).None? {
        RetrySkipsRefused(input, from + 1, parse);
      }
    }
  }

  /** Two retry loops in a row, the second starting where the first stopped: when both accept a
      line, the last line read is the one the second accepted, and before it lies the one the
      first accepted; every other line on the way is refused by the loop that skipped it. */
  lemma RetryPair<T, U>(input: seq<Line>, pos: nat, p: Line -> Option<T>, q: Line -> Option<U>)
    requires pos <= |input|
    ensures var q1 := Retry(input, pos, p); var q2 := Retry(input, q1.1, q);
      q1.0.Some? && q2.0.Some? ==>
        q(input[q2.1 - 1]) == q2.0
        && (exists k1: nat :: pos <= k1 < q2.1 - 1 && p(input[k1]) == q1.0
              && (forall k :: pos <= k < k1 ==> p(input[k]).None?)
              && (forall k :: k1 < k < q2.1 - 1 ==> q(input[k]).None?))
  {
    RetrySkipsRefused(input, pos, p);
    var q1 := Retry(input, pos, p);
    RetrySkipsRefused(input, q1.1, q);
    if q1.0.Some? {
      var k1: nat := q1.1 - 1;
    }
  }

  /** Two retry loops in a row run out of input exactly when no line accepted by the first is
      followed by a line accepted by the second. */
  lemma RetryPairStalls<T, U>(input: seq<Line>, pos: nat, p: Line -> Option<T>, q: Line -> Option<U>)
    requires pos <= |input|
    ensures var q1 := Retry(input, pos, p); var q2 := Retry(input, q1.1, q);
      q1.0.None? || q2.0.None? <==>
        forall k1, k2 :: pos <= k1 < k2 < |input| ==> p(input[k1]).None? || q(input[k2]).None?
  {
    RetrySkipsRefused(input, pos, p);
    var q1 := Retry(input, pos, p);
    RetrySkipsRefused(input, q1.1, q);
    var q2 := Retry(input, q1.1, q);
    if q1.0.Some? && q2.0.None? {
      forall k1, k2 | pos <= k1 < k2 < |input| && p(input[k1]).Some?
        ensures q(input[k2]).None?
      {
        assert q1.1 - 1 <= k1;
      }
    }
    if q1.0.Some? && q2.0.Some? {
      assert p(input[q1.1 - 1]).Some? && q(input[q2.1 - 1]).Some?;
    }
  }

  /** The while (true) loop of LeerEntero, LeerFecha and LeerTextoNoVacio: read lines until one
      is accepted. On a closed input the program would retry forever; here the loop stops with
      nothing at the end of the input. */
  method ReadUntil<T>(input: seq<Line>, from: nat, parse: Line -> Option<T>) returns (r: Option<T>, next: nat)
    requires from <= |input|
    ensures (r, next) == Retry(input, from, parse)
  {
    next := from;
    while next < |input|
      invariant from <= next <= |input|
      invariant Retry(input, next, parse) == Retry(input, from, parse)
      decreases |input| - next
    {
      assert Retry(input, next, parse) == Attempt(input, next, parse);
      var attempt := parse(input[next]);
      next := next + 1;
      if attempt.Some? {
        return attempt, next;
      }
    }
    r := None;
  }

  /** What one pass of the main loop shows. `Stalled`: the input ended while an option was still
      reading, where the program would go on asking forever. */
  datatype Event =
    | PersonaAdded(persona: Persona)
    | IdTaken(id: int)
    | People(people: Listado<Persona>)
    | CitaAdded(cita: Cita, owner: Persona)
    | UnknownId(id: int)
    | Citas(citas: Listado<FilaCita>)
    | InvalidOption
    | Goodbye
    | Stalled

  /** Everything stored went through the program's readers: texts are trimmed and not blank, and
      dates exist. */
  ghost predicate Clean(ps: seq<Persona>, cs: seq<Cita>)
  {
    && (forall k :: 0 <= k < |ps| ==> IsFieldText(ps[k].nombre) && IsFieldText(ps[k].telefono))
    && (forall k :: 0 <= k < |cs| ==> IsFieldText(cs[k].descripcion) && Valid(cs[k].fecha))
  }

  /** What option a) shows and the position after the lines it reads, given the registered
      people `ps`: the id is read and checked before the name and the telephone are asked for. */
  function Registration(ps: seq<Persona>, input: seq<Line>, pos: nat): (r: (Event, nat))
    requires pos <= |input|
    ensures pos <= r.1 <= |input|
    ensures r.0.PersonaAdded? || r.0.IdTaken? || r.0.Stalled?
    ensures r.0 == Stalled ==> r.1 == |input|
    ensures r.0.IdTaken? ==> pos < r.1 && HasId(ps, r.0.id)
    ensures r.0.PersonaAdded? ==> !HasId(ps, r.0.persona.id)
    ensures r.0.PersonaAdded? ==> IsFieldText(r.0.persona.nombre) && IsFieldText(r.0.persona.telefono)
  {
    var (id, p1) := Retry(input, pos, IntLine);
    if id.None? then (Stalled, p1)
    else if HasId(ps, id.value) then (IdTaken(id.value), p1)
    else NewPersona(id.value, input, p1)
  }

  /** The name and the telephone of the person `id`, read in that order. */
  function NewPersona(id: int, input: seq<Line>, pos: nat): (r: (Event, nat))
    requires pos <= |input|
    ensures pos <= r.1 <= |input|
    ensures r.0.PersonaAdded? || r.0.Stalled?
    ensures r.0 == Stalled ==> r.1 == |input|
    ensures r.0.PersonaAdded? ==> pos + 1 < r.1 && r.0.persona.id == id
    ensures r.0.PersonaAdded? ==> IsFieldText(r.0.persona.nombre) && IsFieldText(r.0.persona.telefono)
  {
    var (nombre, p2) := Retry(input, pos, ReadText);
    if nombre.None? then (Stalled, p2)
    else
      var (telefono, p3) := Retry(input, p2, ReadText);
      if telefono.None? then (Stalled, p3)
      else (PersonaAdded(Persona(id, nombre.value, telefono.value)), p3)
  }

  /** Option a) in terms of the loop that reads its id: the id on the first line holding a 32-bit
      integer is refused exactly when it is taken, and is the id of the person registered. */
  lemma RegistrationChecksId(ps: seq<Persona>, input: seq<Line>, pos: nat)
    requires pos <= |input|
    ensures var r, q := Registration(ps, input, pos), Retry(input, pos, IntLine);
      r.0.Stalled? || q.0.Some?
    ensures var r, q := Registration(ps, input, pos), Retry(input, pos, IntLine);
      q.0.Some? ==> (r.0 == IdTaken(q.0.value) <==> HasId(ps, q.0.value))
    ensures var r, q := Registration(ps, input, pos), Retry(input, pos, IntLine);
      r.0.PersonaAdded? ==> q.0.Some? && r.0.persona.id == q.0.value
  {
  }

  /** Option a) reads the name from the first line at or after `pos` that LeerTextoNoVacio
      accepts and the telephone from the next one it accepts, the last line it reads. */
  lemma NewPersonaReads(id: int, input: seq<Line>, pos: nat)
    requires pos <= |input|
    ensures var r := NewPersona(id, input, pos);
      r.0.PersonaAdded? ==>
        exists k1: nat, k2: nat :: pos <= k1 < k2 && k2 + 1 == r.1
          && ReadText(input[k1]) == Some(r.0.persona.nombre)
          && ReadText(input[k2]) == Some(r.0.persona.telefono)
          && (forall k :: pos <= k < k1 ==> ReadText(input[k]).None?)
          && (forall k :: k1 < k < k2 ==> ReadText(input[k]).None?)
  {
    NewPersonaRetries(id, input, pos);
    RetryPair(input, pos, ReadText, ReadText);
  }

  /** Option a) stalls exactly when fewer than two lines at or after `pos` are accepted by
      LeerTextoNoVacio. */
  lemma NewPersonaStalls(id: int, input: seq<Line>, pos: nat)
    requires pos <= |input|
    ensures NewPersona(id, input, pos).0.Stalled? <==>
      forall k1, k2 :: pos <= k1 < k2 < |input| ==> ReadText(input[k1]).None? || ReadText(input[k2]).None?
  {
    NewPersonaRetries(id, input, pos);
    RetryPairStalls(input, pos, ReadText, ReadText);
  }

  /** Option a)'s name and telephone in terms of the two loops that read them. */
  lemma NewPersonaRetries(id: int, input: seq<Line>, pos: nat)
    requires pos <= |input|
    ensures var r, q1 := NewPersona(id, input, pos), Retry(input, pos, ReadText);
      q1.0.None? ==> r == (Stalled, q1.1)
    ensures var r, q1 := NewPersona(id, input, pos), Retry(input, pos, ReadText);
      var q2 := Retry(input, q1.1, ReadText);
      q1.0.Some? && q2.0.None? ==> r == (Stalled, q2.1)
    ensures var r, q1 := NewPersona(id, input, pos), Retry(input, pos, ReadText);
      var q2 := Retry(input, q1.1, ReadText);
      r.0.PersonaAdded? <==> q1.0.Some? && q2.0.Some?
    ensures var r, q1 := NewPersona(id, input, pos), Retry(input, pos, ReadText);
      var q2 := Retry(input, q1.1, ReadText);
      r.0.PersonaAdded? ==> r == (PersonaAdded(Persona(id, q1.0.value, q2.0.value)), q2.1)
  {
  }

  /** Option a) reads the id on the first line at or after `pos` holding a 32-bit integer; a
      taken id ends the option there. */
  lemma RegistrationRefuses(ps: seq<Persona>, input: seq<Line>, pos: nat)
    requires pos <= |input|
    ensures var r := Registration(ps, input, pos);
      r.0.IdTaken? ==>
        exists k1: nat :: pos <= k1 && k1 + 1 == r.1 && ReadInt(input[k1]) == Parsed(r.0.id)
          && forall k :: pos <= k < k1 ==> !ReadInt(input[k]).Parsed?
  {
    RetryInt(input, pos);
    RegistrationRetries(ps, input, pos);
  }

  /** A free id read by option a) is followed by the name and the telephone. */
  lemma RegistrationReads(ps: seq<Persona>, input: seq<Line>, pos: nat)
    requires pos <= |input|
    ensures var r := Registration(ps, input, pos);
      r.0.PersonaAdded? ==>
        exists p1: nat :: pos < p1 <= |input| && r == NewPersona(r.0.persona.id, input, p1)
          && ReadInt(input[p1 - 1]) == Parsed(r.0.persona.id)
          && forall k :: pos <= k < p1 - 1 ==> !ReadInt(input[k]).Parsed?
  {
    RetryInt(input, pos);
    RegistrationRetries(ps, input, pos);
  }

  /** Option a) in terms of the loop that reads its id and the lines read after it. */
  lemma RegistrationRetries(ps: seq<Persona>, input: seq<Line>, pos: nat)
    requires pos <= |input|
    ensures var r, q := Registration(ps, input, pos), Retry(input, pos, IntLine);
      r.0.IdTaken? ==> q.0.Some? && r == (IdTaken(q.0.value), q.1)
    ensures var r, q := Registration(ps, input, pos), Retry(input, pos, IntLine);
      r.0.PersonaAdded? ==> q.0.Some? && r.0.persona.id == q.0.value
                            && r == NewPersona(r.0.persona.id, input, q.1)
  {
  }

  /** Option a) on the store. */
  method DoRegister(store: Store, input: seq<Line>, pos: nat) returns (ev: Event, next: nat)
    requires store.Valid() && pos <= |input|
    modifies store
    ensures store.Valid()
    ensures (ev, next) == Registration(old(store.personas), input, pos)
    ensures ev.PersonaAdded? ==> store.personas == old(store.personas) + [ev.persona]
    ensures !ev.PersonaAdded? ==> store.personas == old(store.personas)
    ensures store.citas == old(store.citas)
  {
    ev, next := ReadRegistration(store.personas, input, pos);
    if ev.PersonaAdded? {
      var o := store.RegistrarPersona(ev.persona.id, ev.persona.nombre, ev.persona.telefono);
    }
  }

  /** The lines option a) reads, given the registered people `ps`. */
  method ReadRegistration(ps: seq<Persona>, input: seq<Line>, pos: nat) returns (ev: Event, next: nat)
    requires pos <= |input|
    ensures (ev, next) == Registration(ps, input, pos)
  {
    var id, p1 := ReadUntil(input, pos, IntLine);
    if id.None? {
      return Stalled, p1;
    }
    if HasId(ps, id.value) {
      return IdTaken(id.value), p1;
    }
    ev, next := ReadNewPersona(id.value, input, p1);
  }

  method ReadNewPersona(id: int, input: seq<Line>, pos: nat) returns (ev: Event, next: nat)
    requires pos <= |input|
    ensures (ev, next) == NewPersona(id, input, pos)
  {
    var nombre, p2 := ReadUntil(input, pos, ReadText);
    if nombre.None? {
      return Stalled, p2;
    }
    var telefono, p3 := ReadUntil(input, p2, ReadText);
    if telefono.None? {
      return Stalled, p3;
    }
    ev, next := PersonaAdded(Persona(id, nombre.value, telefono.value)), p3;
  }

  /** What option c) shows and the position after the lines it reads, given the registered
      people `ps`: the person is looked up before the date and the description are asked for. */
  function Booking(ps: seq<Persona>, input: seq<Line>, pos: nat, fallback: string -> Option<DateTime>)
    : (r: (Event, nat))
    requires pos <= |input|
    ensures pos <= r.1 <= |input|
    ensures r.0.CitaAdded? || r.0.UnknownId? || r.0.Stalled?
    ensures r.0 == Stalled ==> r.1 == |input|
    ensures r.0.UnknownId? ==> pos < r.1 && !HasId(ps, r.0.id)
    ensures r.0.CitaAdded? ==> Find(ps, r.0.cita.personaId) == Some(r.0.owner)
    ensures r.0.CitaAdded? ==> IsFieldText(r.0.cita.descripcion)
    ensures r.0.CitaAdded? && ValidFallback(fallback) ==> Valid(r.0.cita.fecha)
  {
    var (id, p1) := Retry(input, pos, IntLine);
    if id.None? then (Stalled, p1)
    else
      var persona := Find(ps, id.value);
      if persona.None? then (UnknownId(id.value), p1)
      else NewCita(persona.value, input, p1, fallback)
  }

  /** The date and the description of an appointment of `owner`, read in that order. */
  function NewCita(owner: Persona, input: seq<Line>, pos: nat, fallback: string -> Option<DateTime>)
    : (r: (Event, nat))
    requires pos <= |input|
    ensures pos <= r.1 <= |input|
    ensures r.0.CitaAdded? || r.0.Stalled?
    ensures r.0 == Stalled ==> r.1 == |input|
    ensures r.0.CitaAdded? ==> pos + 1 < r.1 && r.0.owner == owner && r.0.cita.personaId == owner.id
    ensures r.0.CitaAdded? ==> IsFieldText(r.0.cita.descripcion)
    ensures r.0.CitaAdded? && ValidFallback(fallback) ==> Valid(r.0.cita.fecha)
  {
    var (fecha, p2) := Retry(input, pos, DateLine(fallback));
    if fecha.None? then (Stalled, p2)
    else
      var (descripcion, p3) := Retry(input, p2, ReadText);
      if descripcion.None? then (Stalled, p3)
      else (CitaAdded(Cita(owner.id, fecha.value, descripcion.value), owner), p3)
  }

  /** Option c) in terms of the loop that reads its id: the id on the first line holding a 32-bit
      integer is refused exactly when nobody has it, and is the id the appointment is booked for. */
  lemma BookingChecksId(ps: seq<Persona>, input: seq<Line>, pos: nat, fallback: string -> Option<DateTime>)
    requires pos <= |input|
    ensures var r, q := Booking(ps, input, pos, fallback), Retry(input, pos, IntLine);
      r.0.Stalled? || q.0.Some?
    ensures var r, q := Booking(ps, input, pos, fallback), Retry(input, pos, IntLine);
      q.0.Some? ==> (r.0 == UnknownId(q.0.value) <==> !HasId(ps, q.0.value))
    ensures var r, q := Booking(ps, input, pos, fallback), Retry(input, pos, IntLine);
      r.0.CitaAdded? ==> q.0.Some? && r.0.cita.personaId == q.0.value
  {
  }

  /** Option c) reads the date from the first line at or after `pos` that LeerFecha accepts and
      the description from the next line LeerTextoNoVacio accepts, the last line it reads. */
  lemma NewCitaReads(owner: Persona, input: seq<Line>, pos: nat, fallback: string -> Option<DateTime>)
    requires pos <= |input|
    ensures var r, date := NewCita(owner, input, pos, fallback), DateLine(fallback);
      r.0.CitaAdded? ==>
        exists k1: nat, k2: nat :: pos <= k1 < k2 && k2 + 1 == r.1
          && date(input[k1]) == Some(r.0.cita.fecha)
          && ReadText(input[k2]) == Some(r.0.cita.descripcion)
          && (forall k :: pos <= k < k1 ==> date(input[k]).None?)
          && (forall k :: k1 < k < k2 ==> ReadText(input[k]).None?)
  {
    NewCitaRetries(owner, input, pos, fallback);
    RetryPair(input, pos, DateLine(fallback), ReadText);
  }

  /** Option c) stalls exactly when no line at or after `pos` that LeerFecha accepts is followed
      by one that LeerTextoNoVacio accepts. */
  lemma NewCitaStalls(owner: Persona, input: seq<Line>, pos: nat, fallback: string -> Option<DateTime>)
    requires pos <= |input|
    ensures NewCita(owner, input, pos, fallback).0.Stalled? <==>
      forall k1, k2 :: pos <= k1 < k2 < |input| ==>
        ReadDate(input[k1], fallback).None? || ReadText(input[k2]).None?
  {
    NewCitaRetries(owner, input, pos, fallback);
    var date := DateLine(fallback);
    RetryPairStalls(input, pos, date, ReadText);
    assert forall k :: pos <= k < |input| ==> date(input[k]) == ReadDate(input[k], fallback);
  }

  /** Option c)'s date and description in terms of the two loops that read them. */
  lemma NewCitaRetries(owner: Persona, input: seq<Line>, pos: nat, fallback: string -> Option<DateTime>)
    requires pos <= |input|
    ensures var r, q1 := NewCita(owner, input, pos, fallback), Retry(input, pos, DateLine(fallback));
      q1.0.None? ==> r == (Stalled, q1.1)
    ensures var r, q1 := NewCita(owner, input, pos, fallback), Retry(input, pos, DateLine(fallback));
      var q2 := Retry(input, q1.1, ReadText);
      q1.0.Some? && q2.0.None? ==> r == (Stalled, q2.1)
    ensures var r, q1 := NewCita(owner, input, pos, fallback), Retry(input, pos, DateLine(fallback));
      var q2 := Retry(input, q1.1, ReadText);
      r.0.CitaAdded? <==> q1.0.Some? && q2.0.Some?
    ensures var r, q1 := NewCita(owner, input, pos, fallback), Retry(input, pos, DateLine(fallback));
      var q2 := Retry(input, q1.1, ReadText);
      r.0.CitaAdded? ==> r == (CitaAdded(Cita(owner.id, q1.0.value, q2.0.value), owner), q2.1)
  {
  }

  /** Option c) reads the id on the first line at or after `pos` holding a 32-bit integer; an
      unknown id ends the option there. */
  lemma BookingRefuses(ps: seq<Persona>, input: seq<Line>, pos: nat, fallback: string -> Option<DateTime>)
    requires pos <= |input|
    ensures var r := Booking(ps, input, pos, fallback);
      r.0.UnknownId? ==>
        exists k1: nat :: pos <= k1 && k1 + 1 == r.1 && ReadInt(input[k1]) == Parsed(r.0.id)
          && forall k :: pos <= k < k1 ==> !ReadInt(input[k]).Parsed?
  {
    RetryInt(input, pos);
    BookingRetries(ps, input, pos, fallback);
  }

  /** A known id read by option c) is followed by the date and the description. */
  lemma BookingReads(ps: seq<Persona>, input: seq<Line>, pos: nat, fallback: string -> Option<DateTime>)
    requires pos <= |input|
    ensures var r := Booking(ps, input, pos, fallback);
      r.0.CitaAdded? ==>
        exists p1: nat :: pos < p1 <= |input| && r == NewCita(r.0.owner, input, p1, fallback)
          && ReadInt(input[p1 - 1]) == Parsed(r.0.cita.personaId)
          && forall k :: pos <= k < p1 - 1 ==> !ReadInt(input[k]).Parsed?
  {
    RetryInt(input, pos);
    BookingRetries(ps, input, pos, fallback);
  }

  /** Option c) in terms of the loop that reads its id and the lines read after it. */
  lemma BookingRetries(ps: seq<Persona>, input: seq<Line>, pos: nat, fallback: string -> Option<DateTime>)
    requires pos <= |input|
    ensures var r, q := Booking(ps, input, pos, fallback), Retry(input, pos, IntLine);
      r.0.UnknownId? ==> q.0.Some? && r == (UnknownId(q.0.value), q.1)
    ensures var r, q := Booking(ps, input, pos, fallback), Retry(input, pos, IntLine);
      r.0.CitaAdded? ==> q.0.Some? && r.0.cita.personaId == q.0.value
                         && r == NewCita(r.0.owner, input, q.1, fallback)
  {
  }

  /** Option c) on the store. */
  method DoBook(store: Store, input: seq<Line>, pos: nat, fallback: string -> Option<DateTime>)
    returns (ev: Event, next: nat)
    requires store.Valid() && pos <= |input|
    modifies store
    ensures store.Valid()
    ensures (ev, next) == Booking(old(store.personas), input, pos, fallback)
    ensures ev.CitaAdded? ==> store.citas == old(store.citas) + [ev.cita]
    ensures !ev.CitaAdded? ==> store.citas == old(store.citas)
    ensures store.personas == old(store.personas)
  {
    ev, next := ReadBooking(store.personas, input, pos, fallback);
    if ev.CitaAdded? {
      var o := store.CrearCita(ev.cita.personaId, ev.cita.fecha, ev.cita.descripcion);
    }
  }

  /** The lines option c) reads, given the registered people `ps`. */
  method ReadBooking(ps: seq<Persona>, input: seq<Line>, pos: nat, fallback: string -> Option<DateTime>)
    returns (ev: Event, next: nat)
    requires pos <= |input|
    ensures (ev, next) == Booking(ps, input, pos, fallback)
  {
    var id, p1 := ReadUntil(input, pos, IntLine);
    if id.None? {
      return Stalled, p1;
    }
    var persona := Find(ps, id.value);
    if persona.None? {
      return UnknownId(id.value), p1;
    }
    ev, next := ReadNewCita(persona.value, input, p1, fallback);
  }

  method ReadNewCita(owner: Persona, input: seq<Line>, pos: nat, fallback: string -> Option<DateTime>)
    returns (ev: Event, next: nat)
    requires pos <= |input|
    ensures (ev, next) == NewCita(owner, input, pos, fallback)
  {
    var fecha, p2 := ReadUntil(input, pos, DateLine(fallback));
    if fecha.None? {
      return Stalled, p2;
    }
    var descripcion, p3 := ReadUntil(input, p2, ReadText);
    if descripcion.None? {
      return Stalled, p3;
    }
    ev, next := CitaAdded(Cita(owner.id, fecha.value, descripcion.value), owner), p3;
  }

  /** What option d) shows and the position after the line it reads: the id is read, then the
      person's listing is shown. */
  function Consultation(ps: seq<Persona>, cs: seq<Cita>, input: seq<Line>, pos: nat): (r: (Event, nat))
    requires pos <= |input|
    ensures pos <= r.1 <= |input|
    ensures r.0.Citas? || r.0.Stalled?
    ensures r.0 == Stalled ==> r.1 == |input|
  {
    var id := Retry(input, pos, IntLine);
    if id.0.None? then (Stalled, id.1) else (Citas(CitasListingFor(ps, cs, id.0.value)), id.1)
  }

  /** Option d) lists the appointments of the id on the last line it read, the first line that
      holds a 32-bit integer. */
  lemma ConsultationListsReadId(ps: seq<Persona>, cs: seq<Cita>, input: seq<Line>, pos: nat)
    requires pos <= |input|
    ensures var r := Consultation(ps, cs, input, pos);
      r.0.Citas? ==> pos < r.1 && ReadInt(input[r.1 - 1]).Parsed?
                     && r.0.citas == CitasListingFor(ps, cs, ReadInt(input[r.1 - 1]).value)
                     && forall k :: pos <= k < r.1 - 1 ==> !ReadInt(input[k]).Parsed?
  {
    RetryInt(input, pos);
    ConsultationRetries(ps, cs, input, pos);
  }

  /** LeerEntero's loop stops at the first line that holds a 32-bit integer, with its value. */
  lemma RetryInt(input: seq<Line>, pos: nat)
    requires pos <= |input|
    ensures var q := Retry(input, pos, IntLine);
      q.0.Some? ==> ReadInt(input[q.1 - 1]) == Parsed(q.0.value)
                    && forall k :: pos <= k < q.1 - 1 ==> !ReadInt(input[k]).Parsed?
    ensures var q := Retry(input, pos, IntLine);
      q.0.None? ==> forall k :: pos <= k < |input| ==> !ReadInt(input[k]).Parsed?
  {
    RetrySkipsRefused(input, pos, IntLine);
  }

  /** Option d) in terms of the loop that reads its id. */
  lemma ConsultationRetries(ps: seq<Persona>, cs: seq<Cita>, input: seq<Line>, pos: nat)
    requires pos <= |input|
    ensures var r, q := Consultation(ps, cs, input, pos), Retry(input, pos, IntLine);
      r.0.Citas? <==> q.0.Some?
    ensures var r, q := Consultation(ps, cs, input, pos), Retry(input, pos, IntLine);
      q.0.Some? ==> r.1 == q.1 && r.0 == Citas(CitasListingFor(ps, cs, q.0.value))
  {
  }

  /** Option d) on the store. */
  method DoListFor(store: Store, input: seq<Line>, pos: nat) returns (ev: Event, next: nat)
    requires pos <= |input|
    ensures (ev, next) == Consultation(store.personas, store.citas, input, pos)
  {
    var id;
    id, next := ReadUntil(input, pos, IntLine);
    if id.None? {
      return Stalled, next;
    }
    var listing := store.ListarCitasPorPersona(id.value);
    ev := Citas(listing);
  }

  /** What an event says about the command that produced it. */
  predicate Answers(c: Command, ev: Event)
  {
    match c
    case Register => ev.PersonaAdded? || ev.IdTaken? || ev.Stalled?
    case ListPeople => ev.People?
    case Book => ev.CitaAdded? || ev.UnknownId? || ev.Stalled?
    case ListFor => ev.Citas? || ev.Stalled?
    case ListAll => ev.Citas?
    case Exit => ev == Goodbye
    case Invalid => ev == InvalidOption
  }

  /** The lists after one pass of the main loop, with what it showed and where the next menu
      line is. */
  datatype Outcome = Outcome(ev: Event, next: nat, personas: seq<Persona>, citas: seq<Cita>)

  /** One pass of the main loop on the lists `ps` and `cs`: the menu line at `at`, then the
      option it selects. Only a) and c) change the lists, and each appends at most one entry. */
  function Pass(ps: seq<Persona>, cs: seq<Cita>, input: seq<Line>, at: nat,
                fallback: string -> Option<DateTime>): (r: Outcome)
    requires at < |input|
    ensures at < r.next <= |input|
    ensures r.ev == Stalled ==> r.next == |input|
    ensures r.ev == Goodbye <==> ParseCommand(input[at]) == Exit
    ensures r.ev == Goodbye ==> r.next == at + 1
    ensures Answers(ParseCommand(input[at]), r.ev)
    ensures ParseCommand(input[at]) == Register ==> (r.ev, r.next) == Registration(ps, input, at + 1)
    ensures ParseCommand(input[at]) == ListPeople ==> r.ev == People(PersonasListing(ps)) && r.next == at + 1
    ensures ParseCommand(input[at]) == Book ==> (r.ev, r.next) == Booking(ps, input, at + 1, fallback)
    ensures ParseCommand(input[at]) == ListFor ==> (r.ev, r.next) == Consultation(ps, cs, input, at + 1)
    ensures ParseCommand(input[at]) == ListAll ==> r.ev == Citas(CitasListing(cs)) && r.next == at + 1
    ensures ParseCommand(input[at]) == Invalid ==> r.next == at + 1
    ensures r.ev.PersonaAdded? ==> !HasId(ps, r.ev.persona.id) && r.personas == ps + [r.ev.persona]
    ensures r.ev.PersonaAdded? ==> IsFieldText(r.ev.persona.nombre) && IsFieldText(r.ev.persona.telefono)
    ensures r.ev.CitaAdded? ==> IsFieldText(r.ev.cita.descripcion)
    ensures r.ev.CitaAdded? && ValidFallback(fallback) ==> Valid(r.ev.cita.fecha)
    ensures !r.ev.PersonaAdded? ==> r.personas == ps
    ensures r.ev.CitaAdded? ==> HasId(ps, r.ev.cita.personaId) && r.citas == cs + [r.ev.cita]
    ensures !r.ev.CitaAdded? ==> r.citas == cs
  {
    match ParseCommand(input[at])
    case Register =>
      var (ev, next) := Registration(ps, input, at + 1);
      Outcome(ev, next, if ev.PersonaAdded? then ps + [ev.persona] else ps, cs)
    case ListPeople => Outcome(People(PersonasListing(ps)), at + 1, ps, cs)
    case Book =>
      var (ev, next) := Booking(ps, input, at + 1, fallback);
      Outcome(ev, next, ps, if ev.CitaAdded? then cs + [ev.cita] else cs)
    case ListFor =>
      var (ev, next) := Consultation(ps, cs, input, at + 1);
      Outcome(ev, next, ps, cs)
    case ListAll => Outcome(Citas(CitasListing(cs)), at + 1, ps, cs)
    case Exit => Outcome(Goodbye, at + 1, ps, cs)
    case Invalid => Outcome(InvalidOption, at + 1, ps, cs)
  }

  /** A pass keeps ids unique and every appointment attached to a registered person. */
  lemma PassConsistent(ps: seq<Persona>, cs: seq<Cita>, input: seq<Line>, at: nat,
                       fallback: string -> Option<DateTime>)
    requires at < |input| && Consistent(ps, cs)
    ensures var r := Pass(ps, cs, input, at, fallback); Consistent(r.personas, r.citas)
  {
    var r := Pass(ps, cs, input, at, fallback);
    if r.ev.PersonaAdded? {
      ConsistentAddPersona(ps, cs, r.ev.persona);
    } else if r.ev.CitaAdded? {
      ConsistentAddCita(ps, cs, r.ev.cita);
    }
  }

  /** Everything a pass stores went through the program's readers. */
  lemma PassClean(ps: seq<Persona>, cs: seq<Cita>, input: seq<Line>, at: nat,
                  fallback: string -> Option<DateTime>)
    requires at < |input| && Clean(ps, cs) && ValidFallback(fallback)
    ensures var r := Pass(ps, cs, input, at, fallback); Clean(r.personas, r.citas)
  {
    var r := Pass(ps, cs, input, at, fallback);
    if r.ev.PersonaAdded? {
      CleanAppendPersona(ps, cs, r.ev.persona);
    } else if r.ev.CitaAdded? {
      CleanAppendCita(ps, cs, r.ev.cita);
    }
  }

  /** Appending a person whose texts went through the text reader keeps the lists clean. */
  lemma CleanAppendPersona(ps: seq<Persona>, cs: seq<Cita>, p: Persona)
    requires Clean(ps, cs) && IsFieldText(p.nombre) && IsFieldText(p.telefono)
    ensures Clean(ps + [p], cs)
  {
    forall k | 0 <= k < |ps| ensures (ps + [p])[k] == ps[k] {}
  }

  /** Appending an appointment with a checked text and an existing date keeps the lists clean. */
  lemma CleanAppendCita(ps: seq<Persona>, cs: seq<Cita>, c: Cita)
    requires Clean(ps, cs) && IsFieldText(c.descripcion) && Valid(c.fecha)
    ensures Clean(ps, cs + [c])
  {
    forall k | 0 <= k < |cs| ensures (cs + [c])[k] == cs[k] {}
  }

  /** One pass of the main loop on the store. */
  method Step(store: Store, input: seq<Line>, at: nat, fallback: string -> Option<DateTime>)
    returns (ev: Event, next: nat)
    requires store.Valid() && at < |input|
    modifies store
    ensures store.Valid()
    ensures Outcome(ev, next, store.personas, store.citas)
         == Pass(old(store.personas), old(store.citas), input, at, fallback)
  {
    next := at + 1;
    match ParseCommand(input[at]) {
      case Register =>
        ev, next := DoRegister(store, input, next);
      case ListPeople =>
        var listing := store.ListarPersonas();
        ev := People(listing);
      case Book =>
        ev, next := DoBook(store, input, next, fallback);
      case ListFor =>
        ev, next := DoListFor(store, input, next);
      case ListAll =>
        var listing := store.ListarTodasLasCitas();
        ev := Citas(listing);
      case Exit =>
        ev := Goodbye;
      case Invalid =>
        ev := InvalidOption;
    }
  }

  /** What a whole run of the program shows, whether it reached the exit option, how many lines
      it consumed, and the lists it ends with. */
  datatype Trace = Trace(events: seq<Event>, exited: bool, consumed: nat,
                         personas: seq<Persona>, citas: seq<Cita>)

  /** Main's do-while loop from line `pos` on the lists `ps` and `cs`: passes follow each other
      until the exit option is chosen or the input ends. */
  function Session(ps: seq<Persona>, cs: seq<Cita>, input: seq<Line>, pos: nat,
                   fallback: string -> Option<DateTime>): (r: Trace)
    requires pos <= |input|
    ensures pos <= r.consumed <= |input|
    ensures ps <= r.personas && cs <= r.citas
    decreases |input| - pos
  {
    if pos == |input| then Trace([], false, pos, ps, cs)
    else
      var o := Pass(ps, cs, input, pos, fallback);
      if o.ev == Goodbye then Trace([Goodbye], true, o.next, o.personas, o.citas)
      else
        var t := Session(o.personas, o.citas, input, o.next, fallback);
        Trace([o.ev] + t.events, t.exited, t.consumed, t.personas, t.citas)
  }

  /** A run stops right after the first exit option, or at the end of the input; every pass it
      shows reads at least one line. */
  lemma {:induction false} SessionEnds(ps: seq<Persona>, cs: seq<Cita>, input: seq<Line>,
                                       pos: nat, fallback: string -> Option<DateTime>)
    requires pos <= |input|
    ensures var r := Session(ps, cs, input, pos, fallback);
      r.exited ==> exists k :: pos <= k && k + 1 == r.consumed && ParseCommand(input[k]) == Exit
    ensures var r := Session(ps, cs, input, pos, fallback); !r.exited ==> r.consumed == |input|
    ensures var r := Session(ps, cs, input, pos, fallback); |r.events| <= r.consumed - pos
    decreases |input| - pos
  {
    if pos < |input| {
      var o := Pass(ps, cs, input, pos, fallback);
      if o.ev != Goodbye {
        SessionEnds(o.personas, o.citas, input, o.next, fallback);
      } else {
        assert pos + 1 == o.next;
      }
    }
  }

  /** Main's loop ends only when a menu line selects the exit option f. */
  lemma ExitOnlyOnF(ps: seq<Persona>, cs: seq<Cita>, input: seq<Line>, pos: nat,
                    fallback: string -> Option<DateTime>)
    requires pos <= |input|
    ensures var r := Session(ps, cs, input, pos, fallback);
      r.exited ==> pos < r.consumed && ParseCommand(input[r.consumed - 1]) == Exit
  {
    SessionEnds(ps, cs, input, pos, fallback);
  }

  /** A run has exited exactly when its last event is Goodbye, and no earlier event is Goodbye. */
  lemma {:induction false} SessionEvents(ps: seq<Persona>, cs: seq<Cita>, input: seq<Line>,
                                         pos: nat, fallback: string -> Option<DateTime>)
    requires pos <= |input|
    ensures var r := Session(ps, cs, input, pos, fallback);
      r.exited <==> |r.events| > 0 && r.events[|r.events| - 1] == Goodbye
    ensures var r := Session(ps, cs, input, pos, fallback);
      forall k :: 0 <= k < |r.events| - 1 ==> r.events[k] != Goodbye
    decreases |input| - pos
  {
    if pos < |input| {
      var o := Pass(ps, cs, input, pos, fallback);
      if o.ev != Goodbye {
        var t := Session(o.personas, o.citas, input, o.next, fallback);
        SessionEvents(o.personas, o.citas, input, o.next, fallback);
        var events := [o.ev] + t.events;
        assert Session(ps, cs, input, pos, fallback) == Trace(events, t.exited, t.consumed, t.personas, t.citas);
        assert forall k :: 0 < k < |events| ==> events[k] == t.events[k - 1];
      }
    }
  }

  /** Every line the menu reads gets an answer: the run is silent only on exhausted input, and
      its first event is the one the pass on the first line shows, so it answers that option. */
  lemma SessionFirst(ps: seq<Persona>, cs: seq<Cita>, input: seq<Line>,
                     pos: nat, fallback: string -> Option<DateTime>)
    requires pos <= |input|
    ensures var r := Session(ps, cs, input, pos, fallback);
      |r.events| > 0 <==> pos < |input|
    ensures var r := Session(ps, cs, input, pos, fallback);
      pos < |input| ==> Answers(ParseCommand(input[pos]), r.events[0])
    ensures var r := Session(ps, cs, input, pos, fallback);
      pos < |input| ==> r.events[0] == Pass(ps, cs, input, pos, fallback).ev
  {
    if pos < |input| {
      var o := Pass(ps, cs, input, pos, fallback);
      assert Session(ps, cs, input, pos, fallback).events[0] == o.ev;
    }
  }

  /** The whole run keeps the lists consistent. */
  lemma {:induction false} SessionConsistent(ps: seq<Persona>, cs: seq<Cita>, input: seq<Line>,
                                             pos: nat, fallback: string -> Option<DateTime>)
    requires pos <= |input| && Consistent(ps, cs)
    ensures var r := Session(ps, cs, input, pos, fallback); Consistent(r.personas, r.citas)
    decreases |input| - pos
  {
    if pos < |input| {
      var o := Pass(ps, cs, input, pos, fallback);
      PassConsistent(ps, cs, input, pos, fallback);
      if o.ev != Goodbye {
        SessionConsistent(o.personas, o.citas, input, o.next, fallback);
      }
    }
  }

  /** Everything the whole run stores went through the program's readers. */
  lemma {:induction false} SessionClean(ps: seq<Persona>, cs: seq<Cita>, input: seq<Line>,
                                        pos: nat, fallback: string -> Option<DateTime>)
    requires pos <= |input| && Clean(ps, cs) && ValidFallback(fallback)
    ensures var r := Session(ps, cs, input, pos, fallback); Clean(r.personas, r.citas)
    decreases |input| - pos
  {
    if pos < |input| {
      var o := Pass(ps, cs, input, pos, fallback);
      PassClean(ps, cs, input, pos, fallback);
      if o.ev != Goodbye {
        SessionClean(o.personas, o.citas, input, o.next, fallback);
      }
    }
  }

  /** The trace of a run that has already shown `events`, then goes on as `rest`. */
  function After(events: seq<Event>, rest: Trace): Trace
  {
    Trace(events + rest.events, rest.exited, rest.consumed, rest.personas, rest.citas)
  }

  /** A run that has shown `events` and is at line `pos` goes on with one pass: it ends there
      when the pass shows Goodbye, and otherwise goes on from where the pass left off. */
  lemma SessionAfterPass(events: seq<Event>, ps: seq<Persona>, cs: seq<Cita>, input: seq<Line>,
                         pos: nat, fallback: string -> Option<DateTime>)
    requires pos < |input|
    ensures var o := Pass(ps, cs, input, pos, fallback);
      o.ev == Goodbye ==>
        After(events, Session(ps, cs, input, pos, fallback))
        == Trace(events + [Goodbye], true, o.next, o.personas, o.citas)
    ensures var o := Pass(ps, cs, input, pos, fallback);
      o.ev != Goodbye ==>
        After(events, Session(ps, cs, input, pos, fallback))
        == After(events + [o.ev], Session(o.personas, o.citas, input, o.next, fallback))
  {
    var o := Pass(ps, cs, input, pos, fallback);
    if o.ev != Goodbye {
      var t := Session(o.personas, o.citas, input, o.next, fallback);
      assert Session(ps, cs, input, pos, fallback) == Trace([o.ev] + t.events, t.exited, t.consumed, t.personas, t.citas);
      assert events + ([o.ev] + t.events) == (events + [o.ev]) + t.events;
    } else {
      assert Session(ps, cs, input, pos, fallback) == Trace([Goodbye], true, o.next, o.personas, o.citas);
    }
  }

  /** Main's do-while loop over the input on the store. */
  method Run(store: Store, input: seq<Line>, fallback: string -> Option<DateTime>)
    returns (events: seq<Event>, exited: bool, consumed: nat)
    requires store.Valid()
    modifies store
    ensures store.Valid()
    ensures Trace(events, exited, consumed, store.personas, store.citas)
         == Session(old(store.personas), old(store.citas), input, 0, fallback)
  {
    ghost var whole := Session(store.personas, store.citas, input, 0, fallback);
    events, exited, consumed := [], false, 0;
    assert events + whole.events == whole.events;
    while !exited && consumed < |input|
      invariant store.Valid() && consumed <= |input|
      invariant !exited ==> whole == After(events, Session(store.personas, store.citas, input, consumed, fallback))
      invariant exited ==> whole == Trace(events, true, consumed, store.personas, store.citas)
      decreases |input| - consumed
    {
      SessionAfterPass(events, store.personas, store.citas, input, consumed, fallback);
      var ev, next := Step(store, input, consumed, fallback);
      events, exited, consumed := events + [ev], ev == Goodbye, next;
    }
  }
}
