/**
 * The note API handler as values: the router that maps a request to an
 * action, the vote-type query parser, and what each action does to the store
 * and answers. The store is the ordered list of notes together with the id
 * counter; the class in module Store keeps the same state in place and is
 * proved to behave as these functions say.
 */
module Api {
  import opened Wrappers
  import opened JavaLang
  import opened Notes

  /** The path under which the note API is mounted. */
  const CollectionPath: string := "/api/notes"

  /** The handler a request is sent to, or the status it fails with. */
  datatype Action = ListNotes | CreateNote | VoteOn(id: int) | DeleteNote(id: int) | Fail(status: int)

  datatype Payload = NoBody | OneNote(note: NoteJson) | AllNotes(notes: seq<NoteJson>)

  /** The status code sent back and the JSON written after it, if any. */
  datatype Response = Response(status: int, payload: Payload)

  function Status(code: int): Response { Response(code, NoBody) }

  /** What reading a create body yields for `text`: a string, a missing key or JSON null, or another JSON type. */
  datatype TextField = Missing | Str(s: string) | NotString

  /** A create body: text that does not parse to a JSON object, or an object. */
  datatype Body = Malformed | Object(text: TextField)

  datatype Request = Request(verb: string, path: string, query: Option<string>, body: Body)

  /** The store: the notes in list order and the value of the id counter. */
  datatype State = State(notes: seq<NoteJson>, counter: int)

  datatype Step = Step(state: State, response: Response)

  const Empty: State := State([], 0)

  /** Some note of the store has the id. */
  ghost predicate HasId(st: State, id: int)
  {
    exists i :: 0 <= i < |st.notes| && st.notes[i].id == id
  }

  /**
   * What the store promises between requests: the counter is not negative, every
   * id lies between 1 and the counter, and ids increase strictly along the list.
   */
  ghost predicate Inv(st: State)
  {
    st.counter >= 0 &&
    (forall i :: 0 <= i < |st.notes| ==> 1 <= st.notes[i].id <= st.counter) &&
    (forall i, j :: 0 <= i < j < |st.notes| ==> st.notes[i].id < st.notes[j].id)
  }

  // ---------------------------------------------------------------- routing

  /** Parses the id segment; a segment that is not an int gives 500 through the top-level catch. */
  function WithId(seg: string, vote: bool): (a: Action)
    ensures a.Fail? <==> ParseInt(seg).None?
    ensures a.Fail? ==> a.status == 500
    ensures !a.Fail? ==> a == (if vote then VoteOn(ParseInt(seg).value) else DeleteNote(ParseInt(seg).value))
  {
    match ParseInt(seg)
    case Some(id) => if vote then VoteOn(id) else DeleteNote(id)
    case None => Fail(500)
  }

  /**
   * `handleNotes`: the collection path itself lists on GET and creates on POST
   * and gives 405 otherwise; a path of five `/`-separated parts whose last is
   * "vote" is a vote on POST; a path of four parts is a delete on DELETE; the
   * rest is 404. Methods and "vote" are compared ignoring case, the path exactly.
   */
  function Route(verb: string, path: string): (a: Action)
    ensures a.Fail? ==> a.status == 404 || a.status == 405 || a.status == 500
  {
    if path == CollectionPath then
      if EqualsIgnoreCase(verb, "GET") then ListNotes
      else if EqualsIgnoreCase(verb, "POST") then CreateNote
      else Fail(405)
    else
      var parts := Split(path, '/');
      if |parts| == 5 && EqualsIgnoreCase(parts[4], "vote") && EqualsIgnoreCase(verb, "POST") then
        WithId(parts[3], true)
      else if |parts| == 4 && EqualsIgnoreCase(verb, "DELETE") then
        WithId(parts[3], false)
      else Fail(404)
  }

  // ---------------------------------------------------------------- query

  /** The value of one `key=value` pair if it splits into exactly two pieces and the key is "type". */
  function TypeValue(pair: string): (r: Option<string>)
    ensures r.Some? ==> r.value != "" && '=' !in r.value
  {
    var kv := Split(pair, '=');
    SplitPieces(pair, '=');
    if |kv| == 2 && EqualsIgnoreCase(kv[0], "type") then Some(kv[1]) else None
  }

  /** What each `&`-separated pair says about the type. */
  function PairTypes(pairs: seq<string>): (r: seq<Option<string>>)
    ensures |r| == |pairs|
  {
    seq(|pairs|, i requires 0 <= i < |pairs| => TypeValue(pairs[i]))
  }

  /** The last value present: the variable of the parsing loop after the last assignment to it. */
  function LastSome(vs: seq<Option<string>>): Option<string>
  {
    if vs == [] then None
    else if vs[|vs| - 1].Some? then vs[|vs| - 1]
    else LastSome(vs[..|vs| - 1])
  }

  /**
   * The vote type of a query string: the value of its last `type` pair; a `null`
   * query has none. Since `split` drops trailing empty pieces, a type is never empty.
   */
  function VoteType(query: Option<string>): (r: Option<string>)
    ensures query.None? ==> r.None?
    ensures r.Some? ==> r.value != "" && '=' !in r.value
  {
    match query
    case None => None
    case Some(q) =>
      var vs := PairTypes(Split(q, '&'));
      LastSomeIn(vs);
      LastSome(vs)
  }

  /** The value chosen is one of the values present. */
  lemma {:induction false} LastSomeIn(vs: seq<Option<string>>)
    ensures LastSome(vs).Some? ==> LastSome(vs) in vs
  {
    if vs != [] && vs[|vs| - 1].None? {
      LastSomeIn(vs[..|vs| - 1]);
    }
  }

  /** +1 for "up", -1 for "down" (ignoring case), nothing for any other or a missing type. */
  function VoteDelta(voteType: Option<string>): (d: Option<int>)
    ensures d == Some(1) <==> OptEqualsIgnoreCase(voteType, "up")
    ensures d == Some(-1) <==> OptEqualsIgnoreCase(voteType, "down")
    ensures d == None <==> !OptEqualsIgnoreCase(voteType, "up") && !OptEqualsIgnoreCase(voteType, "down")
  {
    if OptEqualsIgnoreCase(voteType, "up") then Some(1)
    else if OptEqualsIgnoreCase(voteType, "down") then Some(-1)
    else None
  }

  // ---------------------------------------------------------------- store operations

  /** The first note with the given id, as `findNoteById` and the delete loop find it. */
  function IndexOfId(notes: seq<NoteJson>, id: int): (r: Option<nat>)
    ensures r.Some? ==> r.value < |notes| && notes[r.value].id == id
    ensures r.Some? ==> forall j :: 0 <= j < r.value ==> notes[j].id != id
    ensures r.None? ==> forall j :: 0 <= j < |notes| ==> notes[j].id != id
  {
    if notes == [] then None
    else if notes[0].id == id then Some(0)
    else
      match IndexOfId(notes[1..], id)
      case None => None
      case Some(k) => Some(k + 1)
  }

  /**
   * `(String) incoming.get("text")`: the text of the new note, `null` for a missing
   * key; `None` when the body is not a JSON object or the text is not a string.
   */
  function BodyText(body: Body): (r: Option<Option<string>>)
    ensures r.Some? <==> body.Object? && !body.text.NotString?
    ensures r == Some(None) <==> body == Object(Missing)
  {
    match body
    case Malformed => None
    case Object(Missing) => Some(None)
    case Object(Str(s)) => Some(Some(s))
    case Object(NotString) => None
  }

  /** `handleCreateNote`. */
  function CreateSpec(st: State, body: Body): (r: Step)
    ensures r.response.status == 200 || r.response.status == 500
    ensures r.response.status == 500 <==> BodyText(body).None?
    ensures r.response.status == 500 ==> r.state == st
    ensures r.response.status == 200 ==>
              r.state.counter == st.counter + 1 && |r.state.notes| == |st.notes| + 1
  {
    match BodyText(body)
    case None => Step(st, Status(500))
    case Some(text) =>
      var n := NoteJson(st.counter + 1, text, 0);
      Step(State(st.notes + [n], st.counter + 1), Response(200, OneNote(n)))
  }

  /** `handleDeleteNote`: a missing id answers 500. */
  function DeleteSpec(st: State, id: int): (r: Step)
    ensures r.response.status == 204 || r.response.status == 500
    ensures r.response.status == 204 <==> HasId(st, id)
    ensures r.response.status == 500 ==> r.state == st
    ensures r.state.counter == st.counter
    ensures |r.state.notes| == |st.notes| - (if r.response.status == 204 then 1 else 0)
  {
    match IndexOfId(st.notes, id)
    case None => Step(st, Status(500))
    case Some(k) => Step(st.(notes := st.notes[..k] + st.notes[k + 1..]), Status(204))
  }

  /**
   * `handleVoteOnNote` once the query is read: the id is looked up first (404),
   * then a missing or unknown type is a bad request (400), else the note's votes
   * move by `delta` and the note is the answer.
   */
  function VoteWith(st: State, id: int, delta: Option<int>): (r: Step)
    ensures r.response.status == 404 <==> !HasId(st, id)
    ensures r.response.status == 400 <==> delta.None? && HasId(st, id)
    ensures r.response.status != 200 ==> r.state == st
    ensures r.state.counter == st.counter && |r.state.notes| == |st.notes|
  {
    match IndexOfId(st.notes, id)
    case None => Step(st, Status(404))
    case Some(k) =>
      match delta
      case None => Step(st, Status(400))
      case Some(d) =>
        var n := st.notes[k].(votes := st.notes[k].votes + d);
        Step(st.(notes := st.notes[k := n]), Response(200, OneNote(n)))
  }

  /** `handleVoteOnNote`: reading the query has no effect, so it may be done before the lookup. */
  function VoteSpec(st: State, id: int, query: Option<string>): (r: Step)
    ensures r.response.status == 200 || r.response.status == 400 || r.response.status == 404
    ensures r.response.status == 200 <==>
              HasId(st, id) &&
              (OptEqualsIgnoreCase(VoteType(query), "up") || OptEqualsIgnoreCase(VoteType(query), "down"))
  {
    VoteWith(st, id, VoteDelta(VoteType(query)))
  }

  /** Runs the handler the router chose (`handleGetAllNotes` for a list). */
  function Dispatch(st: State, a: Action, query: Option<string>, body: Body): (r: Step)
    ensures a.ListNotes? || a.Fail? ==> r.state == st
    ensures a.Fail? ==> r.response == Status(a.status)
    ensures !a.CreateNote? ==> r.state.counter == st.counter
    ensures r.state.counter >= st.counter
  {
    match a
    case ListNotes => Step(st, Response(200, AllNotes(st.notes)))
    case CreateNote => CreateSpec(st, body)
    case VoteOn(id) => VoteSpec(st, id, query)
    case DeleteNote(id) => DeleteSpec(st, id)
    case Fail(code) => Step(st, Status(code))
  }

  /** `handleNotes` applied to the store. */
  function HandleSpec(st: State, req: Request): (r: Step)
    ensures r.response.status in {200, 204, 400, 404, 405, 500}
    ensures Route(req.verb, req.path).Fail? ==> r.state == st
    ensures r.state.counter >= st.counter
  {
    Dispatch(st, Route(req.verb, req.path), req.query, req.body)
  }

  /** The store after handling the requests one after the other. */
  function Run(st: State, reqs: seq<Request>): State
  {
    if reqs == [] then st else HandleSpec(Run(st, reqs[..|reqs| - 1]), reqs[|reqs| - 1]).state
  }
}
