/** The emulated serial port: one slot for a request, one for a response, a worker between them,
    and clients that open, write, read, flush, release and close. */
module ComPortModel {
  import opened Bytes
  import opened StandardCrc
  import opened Framing

  const FAILURES_COUNT := 3

  /** The response files and the error answers, by device and function. */
  datatype Answering = Answering(files: (byte, byte) -> seq<byte>, errors: (byte, byte) -> seq<byte>)

  /** What the worker demands of a request; the CRC is taken over all of it. */
  predicate Acceptable(request: seq<byte>) {
    && |request| >= REQUEST_HEADER_SIZE && Supported(request[1])
    && |request| >= Needed(Requests, request)
    && Passes(request)
  }

  function AnswerTo(env: Answering, request: seq<byte>): seq<byte>
    requires |request| >= REQUEST_HEADER_SIZE
  {
    var content := env.files(request[0], request[1]);
    if content == [] then env.errors(request[0], request[1]) else WithCrc(content)
  }

  /** The number of the request, and the request or the answer to it. */
  datatype Note = Note(id: nat, data: seq<byte>)

  datatype Slot = Free | Full(note: Note)

  datatype Written = Written(session: nat, data: seq<byte>)

  datatype Given = Given(id: nat, session: nat, asked: nat, bytes: seq<byte>)

  /** The last five fields are the history: all requests written, all responses handed out, the numbers of
      the requests lost on the way and rejected by the worker, and how each attempt of the worker ended. */
  datatype Port = Port(
    open: bool,
    ocb: nat,
    session: nat,
    request: Slot,
    hand: Slot,
    response: Slot,
    failures: nat,
    writes: seq<Written>,
    given: seq<Given>,
    lost: seq<nat>,
    rejected: seq<nat>,
    finished: seq<bool>)

  const CLOSED := Port(false, 0, 0, Free, Free, Free, 0, [], [], [], [], [])

  datatype Step =
    | Open(ocb: nat, granted: bool)
    | Write(ocb: nat, data: seq<byte>)
    | Take
    | Finish
    | Read(ocb: nat, asked: nat)
    | FlushRequest(ocb: nat)
    | FlushResponse(ocb: nat)
    | Close(ocb: nat)

  function Lose(lost: seq<nat>, slot: Slot): seq<nat> {
    if slot.Full? then lost + [slot.note.id] else lost
  }

  function Least(a: nat, b: nat): (m: nat)
    ensures m <= a && m <= b
  {
    if a < b then a else b
  }

  /** The worker rejects a bad request, and puts the answer to a good one into the response slot. */
  function Finished(env: Answering, p: Port): Port
    requires p.hand.Full?
  {
    var note := p.hand.note;
    if !Acceptable(note.data) then
      p.(hand := Free, failures := p.failures + 1, rejected := p.rejected + [note.id], finished := p.finished + [false])
    else
      p.(hand := Free, failures := 0, response := Full(Note(note.id, AnswerTo(env, note.data))),
         lost := Lose(p.lost, p.response), finished := p.finished + [true])
  }

  /** One step; a step that is refused, or has to wait, changes nothing. */
  function Next(env: Answering, p: Port, step: Step): Port {
    match step
    case Open(ocb, granted) =>
      if p.open || ocb == 0 || !granted then p
      else
        p.(open := true, ocb := ocb, session := p.session + 1, request := Free, response := Free,
           lost := Lose(Lose(p.lost, p.request), p.response))
    case Write(ocb, data) =>
      if !p.open || ocb != p.ocb then p
      else
        p.(writes := p.writes + [Written(p.session, data)], request := Full(Note(|p.writes|, data)),
           lost := Lose(p.lost, p.request))
    case Take =>
      if p.failures >= FAILURES_COUNT || p.hand.Full? || !p.open || p.request.Free? then p
      else p.(hand := p.request, request := Free)
    case Finish =>
      if p.hand.Free? then p else Finished(env, p)
    case Read(ocb, asked) =>
      if !p.open || ocb != p.ocb || p.response.Free? then p
      else
        var note := p.response.note;
        var n := Least(|note.data|, asked);
        p.(response := Free, given := p.given + [Given(note.id, p.session, asked, note.data[..n])])
    case FlushRequest(ocb) =>
      if !p.open || ocb != p.ocb then p else p.(request := Free, lost := Lose(p.lost, p.request))
    case FlushResponse(ocb) =>
      if !p.open || ocb != p.ocb then p else p.(response := Free, lost := Lose(p.lost, p.response))
    case Close(ocb) =>
      if ocb != p.ocb then p
      else p.(open := false, ocb := 0, request := Free, lost := Lose(p.lost, p.request))
  }

  function Exec(env: Answering, p: Port, steps: seq<Step>): Port {
    if steps == [] then p else Next(env, Exec(env, p, steps[..|steps| - 1]), steps[|steps| - 1])
  }
}
