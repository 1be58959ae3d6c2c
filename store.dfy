/**
 * The handler's in-memory store as the program keeps it: a list of mutable note
 * objects and the shared id counter. Each handler is proved to change the store
 * exactly as the corresponding function of module Api says.
 */
module Store {
  import opened Wrappers
  import opened JavaLang
  import opened Notes
  import opened Api
  import opened ApiProperties

  /** The JSON objects of the notes, in list order. */
  function Snapshot(ns: seq<Note>): (r: seq<NoteJson>)
    reads ns
    ensures |r| == |ns|
    ensures forall i :: 0 <= i < |ns| ==> r[i] == ns[i].Json()
  {
    seq(|ns|, i requires 0 <= i < |ns| reads ns => ns[i].Json())
  }

  /**
   * The query parsing loop of `handleVoteOnNote`: split on `&`, split each pair
   * on `=`, and keep the value of every two-piece pair whose key is "type".
   */
  method ParseVoteType(query: Option<string>) returns (voteType: Option<string>)
    ensures voteType == VoteType(query)
  {
    voteType := None;
    if query.Some? {
      var pairs := Split(query.value, '&');
      var i := 0;
      while i < |pairs|
        invariant 0 <= i <= |pairs|
        invariant voteType == LastSome(PairTypes(pairs[..i]))
      {
        var kv := Split(pairs[i], '=');
        if |kv| == 2 && EqualsIgnoreCase(kv[0], "type") {
          voteType := Some(kv[1]);
        }
        assert TypeValue(pairs[i]) == if |kv| == 2 && EqualsIgnoreCase(kv[0], "type") then Some(kv[1]) else None;
        PairTypesStep(pairs, i);
        i := i + 1;
      }
      assert pairs[..i] == pairs;
    }
  }

  /** One more pair adds its type value at the end. */
  lemma PairTypesStep(pairs: seq<string>, i: nat)
    requires i < |pairs|
    ensures PairTypes(pairs[..i + 1]) == PairTypes(pairs[..i]) + [TypeValue(pairs[i])]
    ensures var vs := PairTypes(pairs[..i + 1]);
            LastSome(vs) == if TypeValue(pairs[i]).Some? then TypeValue(pairs[i]) else LastSome(PairTypes(pairs[..i]))
  {
    var vs := PairTypes(pairs[..i + 1]);
    assert vs == PairTypes(pairs[..i]) + [TypeValue(pairs[i])];
    assert vs[..|vs| - 1] == PairTypes(pairs[..i]);
  }

  /** Removing a note removes its JSON object and nothing else. */
  lemma SnapshotRemove(ns: seq<Note>, i: nat)
    requires i < |ns|
    ensures Snapshot(ns[..i] + ns[i + 1..]) == Snapshot(ns)[..i] + Snapshot(ns)[i + 1..]
  {
    var r := Snapshot(ns);
    var rest := ns[..i] + ns[i + 1..];
    forall j | 0 <= j < |rest| ensures Snapshot(rest)[j] == (r[..i] + r[i + 1..])[j] {
      RemoveAt(ns, i, j);
      RemoveAt(r, i, j);
    }
  }

  class NoteStore {
    /** The `notes` list, in insertion order. */
    var notes: seq<Note>
    /** The id counter the notes draw from. */
    const ids: NoteCounter

    /** The list as JSON values. */
    function Contents(): seq<NoteJson>
      reads this, notes
    {
      Snapshot(notes)
    }

    /** The store as a value of module Api. */
    function Abstract(): State
      reads this, notes, ids
    {
      State(Contents(), ids.value)
    }

    /** Ids are positive, issued by the counter and increasing along the list. */
    ghost predicate Valid()
      reads this, notes, ids
    {
      Inv(Abstract())
    }

    constructor ()
      ensures Valid() && Abstract() == Empty
    {
      notes := [];
      ids := new NoteCounter();
    }

    /** Distinct ids make the note objects distinct. */
    lemma Distinct()
      requires Valid()
      ensures forall i, j :: 0 <= i < j < |notes| ==> notes[i] != notes[j]
    {
      forall i, j | 0 <= i < j < |notes| ensures notes[i] != notes[j] {
        assert Contents()[i].id < Contents()[j].id;
      }
    }

    /** `handleGetAllNotes`: the JSON objects of all notes, in list order. */
    method List() returns (r: seq<NoteJson>)
      ensures r == Contents()
    {
      r := [];
      var i := 0;
      while i < |notes|
        invariant 0 <= i <= |notes|
        invariant r == Contents()[..i]
      {
        r := r + [notes[i].Json()];
        i := i + 1;
      }
    }

    /** `findNoteById`: the first note with the id, or `null`. */
    method Find(id: int) returns (n: Note?)
      ensures n == null <==> IndexOfId(Contents(), id).None?
      ensures n != null ==> n == notes[IndexOfId(Contents(), id).value]
    {
      var i := 0;
      while i < |notes|
        invariant 0 <= i <= |notes|
        invariant forall j :: 0 <= j < i ==> notes[j].id != id
      {
        if notes[i].id == id {
          IndexOfFirst(Contents(), id, i);
          return notes[i];
        }
        i := i + 1;
      }
      return null;
    }

    /** `handleCreateNote`: a body without usable text throws before a note is made. */
    method Create(body: Body) returns (resp: Response)
      requires Valid()
      modifies this, ids
      ensures Valid()
      ensures Step(Abstract(), resp) == CreateSpec(old(Abstract()), body)
    {
      ghost var st := Abstract();
      CreateAppends(st, body);
      match BodyText(body)
      case None =>
        resp := Status(500);
      case Some(text) =>
        ghost var after := CreateSpec(st, body).state;
        var n := new Note(ids, text);
        notes := notes + [n];
        forall i | 0 <= i < |notes| ensures Contents()[i] == after.notes[i] {
          if i < |st.notes| {
            assert Contents()[i] == old(notes[i].Json());
          }
        }
        assert Abstract() == after;
        resp := Response(200, OneNote(n.Json()));
    }

    /** `handleDeleteNote`: removes the first note with the id, or answers 500. */
    method Delete(id: int) returns (resp: Response)
      requires Valid()
      modifies this
      ensures Valid()
      ensures Step(Abstract(), resp) == DeleteSpec(old(Abstract()), id)
    {
      var i := 0;
      while i < |notes|
        invariant 0 <= i <= |notes|
        invariant forall j :: 0 <= j < i ==> notes[j].id != id
      {
        if notes[i].id == id {
          DeleteAt(Abstract(), id, i);
          SnapshotRemove(notes, i);
          notes := notes[..i] + notes[i + 1..];
          return Status(204);
        }
        i := i + 1;
      }
      assert IndexOfId(Contents(), id) == None;
      return Status(500);
    }

    /** `handleVoteOnNote`: 404 for an unknown id, 400 for a bad type, else one vote up or down. */
    method Vote(id: int, query: Option<string>) returns (resp: Response)
      requires Valid()
      modifies notes
      ensures Valid()
      ensures Step(Abstract(), resp) == VoteSpec(old(Abstract()), id, query)
    {
      var n := Find(id);
      if n == null {
        return Status(404);
      }
      var voteType := ParseVoteType(query);
      if OptEqualsIgnoreCase(voteType, "up") {
        assert VoteDelta(voteType) == Some(1);
        resp := ApplyVote(n, id, true);
      } else if OptEqualsIgnoreCase(voteType, "down") {
        assert VoteDelta(voteType) == Some(-1);
        resp := ApplyVote(n, id, false);
      } else {
        return Status(400);
      }
    }

    /**
     * The tail of `handleVoteOnNote` once the note is found and the type is good:
     * `upvote` or `downvote`, then the note as the answer.
     */
    method ApplyVote(n: Note, id: int, up: bool) returns (resp: Response)
      requires Valid()
      requires IndexOfId(Contents(), id).Some? && notes[IndexOfId(Contents(), id).value] == n
      modifies n
      ensures Valid()
      ensures Step(Abstract(), resp) == VoteWith(old(Abstract()), id, Some(if up then 1 else -1))
    {
      ghost var st := Abstract();
      ghost var k := IndexOfId(st.notes, id).value;
      ghost var delta := Some(if up then 1 else -1);
      VoteOnNote(st, id, delta, k);
      VoteKeepsIds(st, id, delta);
      ghost var after := st.notes[k := st.notes[k].(votes := st.notes[k].votes + delta.value)];
      assert VoteWith(st, id, delta) == Step(State(after, st.counter), Response(200, OneNote(after[k])));
      Distinct();
      if up {
        n.Upvote();
      } else {
        n.Downvote();
      }
      forall i | 0 <= i < |notes| ensures Contents()[i] == after[i] {
        if i != k {
          assert notes[i] != n;
        }
      }
      assert Contents() == after;
      resp := Response(200, OneNote(n.Json()));
    }

    /** `handleNotes`: routes the request and runs the chosen handler. */
    method Handle(verb: string, path: string, query: Option<string>, body: Body) returns (resp: Response)
      requires Valid()
      modifies this, ids, notes
      ensures Valid()
      ensures Step(Abstract(), resp) == HandleSpec(old(Abstract()), Request(verb, path, query, body))
    {
      match Route(verb, path)
      case ListNotes =>
        var all := List();
        resp := Response(200, AllNotes(all));
      case CreateNote =>
        resp := Create(body);
      case VoteOn(id) =>
        resp := Vote(id, query);
      case DeleteNote(id) =>
        resp := Delete(id);
      case Fail(code) =>
        resp := Status(code);
    }
  }
}
