/**
 * The note entity: an id drawn from a process-wide counter, a text that may be
 * `null`, and a vote tally without floor or ceiling.
 */
module Notes {
  import opened Wrappers

  /** The serialised form of a note: exactly the fields id, text and votes. */
  datatype NoteJson = NoteJson(id: int, text: Option<string>, votes: int)

  /** The static `counter` shared by every note of the process; it starts at 0. */
  class NoteCounter {
    var value: int

    constructor ()
      ensures value == 0
    {
      value := 0;
    }
  }

  class Note {
    const id: int
    var text: Option<string>
    var votes: int

    /** Takes the next id from the counter (`id = ++counter`); a new note has no votes. */
    constructor (counter: NoteCounter, text: Option<string>)
      modifies counter
      ensures counter.value == old(counter.value) + 1
      ensures id == counter.value
      ensures this.text == text && votes == 0
    {
      counter.value := counter.value + 1;
      id := counter.value;
      this.text := text;
      votes := 0;
    }

    /** Replaces the text and nothing else. */
    method SetText(text: Option<string>)
      modifies this`text
      ensures Json() == old(Json()).(text := text)
    {
      this.text := text;
    }

    /** One more vote. */
    method Upvote()
      modifies this`votes
      ensures Json() == old(Json()).(votes := old(votes) + 1)
    {
      votes := votes + 1;
    }

    /** One vote less; the tally may go below zero. */
    method Downvote()
      modifies this`votes
      ensures Json() == old(Json()).(votes := old(votes) - 1)
    {
      votes := votes - 1;
    }

    /** `getJSONObject`: the current state of the note as a value. */
    function Json(): (j: NoteJson)
      reads this
      ensures j.id == id && j.text == text && j.votes == votes
    {
      NoteJson(id, text, votes)
    }
  }

  /** An upvote followed by a downvote leaves the note as it was. */
  method UpvoteThenDownvote(n: Note)
    modifies n
    ensures n.Json() == old(n.Json())
  {
    n.Upvote();
    n.Downvote();
  }
}
