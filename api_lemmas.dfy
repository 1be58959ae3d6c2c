/**
 * Properties of the note API handler, stated over the functions of module Api.
 */
module ApiProperties {
  import opened Wrappers
  import opened JavaLang
  import opened Notes
  import opened Api

  // ---------------------------------------------------------------- routing

  lemma CollectionPathParts()
    ensures Split(CollectionPath, '/') == ["", "api", "notes"]
  {
    var ps := ["", "api", "notes"];
    assert Join(ps, '/') == CollectionPath by {
      assert ps[1..] == ["api", "notes"];
      assert ps[1..][1..] == ["notes"];
    }
    SplitJoin(ps, '/');
  }

  /**
   * The catch-all of the router: a path of one, two or more than four segments
   * after the leading `/` (other than the collection path itself) is 404 for every
   * method, whatever its segments say.
   */
  lemma OtherShapesNotFound(verb: string, segs: seq<string>)
    requires segs != [] && segs[|segs| - 1] != ""
    requires forall i :: 0 <= i < |segs| ==> '/' !in segs[i]
    requires |segs| != 3 && |segs| != 4 && segs != ["api", "notes"]
    ensures Route(verb, "/" + Join(segs, '/')) == Fail(404)
  {
    SlashPathParts(segs);
    NotFoundByShape(verb, "/" + Join(segs, '/'));
  }

  /** Off the collection path, a split into other than four or five parts is 404. */
  lemma NotFoundByShape(verb: string, path: string)
    requires path != CollectionPath
    requires |Split(path, '/')| != 4 && |Split(path, '/')| != 5
    ensures Route(verb, path) == Fail(404)
  {
  }

  /** A path built from `/`-free segments after a leading `/` splits back into "" and those segments. */
  lemma SlashPathParts(segs: seq<string>)
    requires segs != [] && segs[|segs| - 1] != ""
    requires forall i :: 0 <= i < |segs| ==> '/' !in segs[i]
    ensures Split("/" + Join(segs, '/'), '/') == [""] + segs
    ensures segs != ["api", "notes"] ==> "/" + Join(segs, '/') != CollectionPath
  {
    var ps := [""] + segs;
    JoinCons("", segs, '/');
    assert "/" + Join(segs, '/') == Join(ps, '/');
    SplitJoin(ps, '/');
    CollectionPathParts();
    assert ps[1..] == segs;
  }

  /** The collection path with a trailing slash is not the collection path: every method gets 404. */
  lemma CollectionWithSlashNotFound(verb: string)
    ensures Route(verb, CollectionPath + "/") == Fail(404)
  {
    CollectionPathParts();
    TrailingDelimiterIgnored(CollectionPath, '/');
  }

  /** The router never looks at the two segments before the id. */
  lemma {:induction false} DeleteRoute(verb: string, a: string, b: string, seg: string)
    requires '/' !in a && '/' !in b && '/' !in seg && seg != ""
    ensures Route(verb, "/" + a + "/" + b + "/" + seg) ==
              if EqualsIgnoreCase(verb, "DELETE") then
                (match ParseInt(seg) case Some(id) => DeleteNote(id) case None => Fail(500))
              else Fail(404)
  {
    var ps := ["", a, b, seg];
    var path := "/" + a + "/" + b + "/" + seg;
    assert Join(ps, '/') == path by {
      JoinCons("", [a, b, seg], '/');
      JoinCons(a, [b, seg], '/');
      JoinCons(b, [seg], '/');
    }
    SplitJoin(ps, '/');
    CollectionPathParts();
  }

  lemma {:induction false} VoteRoute(verb: string, a: string, b: string, seg: string, v: string)
    requires '/' !in a && '/' !in b && '/' !in seg && '/' !in v && v != ""
    ensures Route(verb, "/" + a + "/" + b + "/" + seg + "/" + v) ==
              if EqualsIgnoreCase(v, "vote") && EqualsIgnoreCase(verb, "POST") then
                (match ParseInt(seg) case Some(id) => VoteOn(id) case None => Fail(500))
              else Fail(404)
  {
    var ps := ["", a, b, seg, v];
    var path := "/" + a + "/" + b + "/" + seg + "/" + v;
    assert Join(ps, '/') == path by {
      JoinCons("", [a, b, seg, v], '/');
      JoinCons(a, [b, seg, v], '/');
      JoinCons(b, [seg, v], '/');
      JoinCons(seg, [v], '/');
    }
    SplitJoin(ps, '/');
    CollectionPathParts();
  }

  /** A trailing slash changes no route except that of the collection path itself. */
  lemma TrailingSlashIgnored(verb: string, path: string)
    requires path != CollectionPath
    ensures Route(verb, path + "/") == Route(verb, path)
  {
    if path == "" {
      assert RawSplit("/", '/') == ["", ""] by {
        RawSplitAt("/", '/', 0);
        assert "/"[1..] == "";
      }
      assert Split("/", '/') == [];
      return;
    }
    TrailingDelimiterIgnored(path, '/');
    assert (path + "/")[|path|] == '/';
    assert CollectionPath[|CollectionPath| - 1] == 's';
  }

  lemma ItemPath(seg: string)
    ensures CollectionPath + "/" + seg == "/" + "api" + "/" + "notes" + "/" + seg
    ensures CollectionPath + "/" + seg + "/vote" == "/" + "api" + "/" + "notes" + "/" + seg + "/" + "vote"
  {
  }

  /** The id the API serialises, printed into the client's URL, routes back to the same note. */
  lemma DeletePrintedId(id: int)
    requires MinInt <= id <= MaxInt
    ensures Route("DELETE", CollectionPath + "/" + IntToString(id)) == DeleteNote(id)
  {
    var seg := IntToString(id);
    ParseIntToString(id);
    ItemPath(seg);
    DeleteRoute("DELETE", "api", "notes", seg);
  }

  lemma VotePrintedId(id: int)
    requires MinInt <= id <= MaxInt
    ensures Route("POST", CollectionPath + "/" + IntToString(id) + "/vote") == VoteOn(id)
  {
    var seg := IntToString(id);
    ParseIntToString(id);
    ItemPath(seg);
    VoteRoute("POST", "api", "notes", seg, "vote");
  }

  /** Only the collection path lists and creates, on GET and POST in any case. */
  lemma CollectionOnly(verb: string, path: string)
    ensures Route(verb, path) == ListNotes <==> path == CollectionPath && EqualsIgnoreCase(verb, "GET")
    ensures Route(verb, path) == CreateNote <==>
              path == CollectionPath && !EqualsIgnoreCase(verb, "GET") && EqualsIgnoreCase(verb, "POST")
    ensures path == CollectionPath && Route(verb, path).Fail? ==> Route(verb, path) == Fail(405)
  {
  }

  /** An id segment that is not a 32-bit integer makes both item routes fail with 500. */
  lemma NonIntegerIdRoutes(seg: string)
    requires '/' !in seg && seg != "" && ParseInt(seg) == None
    ensures Route("DELETE", CollectionPath + "/" + seg) == Fail(500)
    ensures Route("POST", CollectionPath + "/" + seg + "/vote") == Fail(500)
  {
    ItemPath(seg);
    DeleteRoute("DELETE", "api", "notes", seg);
    VoteRoute("POST", "api", "notes", seg, "vote");
  }

  /** A request the router rejects answers with the router's status and leaves the store as it was. */
  lemma RejectedChangesNothing(st: State, req: Request)
    requires Route(req.verb, req.path).Fail?
    ensures HandleSpec(st, req) == Step(st, Status(Route(req.verb, req.path).status))
    ensures HandleSpec(st, req).response.status in {404, 405, 500}
  {
  }

  /** So a non-integer id answers 500 on both item routes and changes nothing. */
  lemma NonIntegerIdFails(st: State, seg: string, query: Option<string>, body: Body)
    requires '/' !in seg && seg != "" && ParseInt(seg) == None
    ensures HandleSpec(st, Request("DELETE", CollectionPath + "/" + seg, query, body)) == Step(st, Status(500))
    ensures HandleSpec(st, Request("POST", CollectionPath + "/" + seg + "/vote", query, body)) == Step(st, Status(500))
  {
    NonIntegerIdRoutes(seg);
    RejectedChangesNothing(st, Request("DELETE", CollectionPath + "/" + seg, query, body));
    RejectedChangesNothing(st, Request("POST", CollectionPath + "/" + seg + "/vote", query, body));
  }

  // ---------------------------------------------------------------- vote type

  /** The last value present is the one chosen: both directions. */
  lemma {:induction false} LastSomeFound(vs: seq<Option<string>>, v: string)
    ensures LastSome(vs) == Some(v) <==>
              exists k :: 0 <= k < |vs| && vs[k] == Some(v) && forall j :: k < j < |vs| ==> vs[j] == None
  {
    if vs == [] {
      return;
    }
    var n := |vs| - 1;
    if vs[n].Some? {
      if LastSome(vs) == Some(v) {
        assert vs[n] == Some(v);
      }
      forall k | 0 <= k < |vs| && vs[k] == Some(v) && forall j :: k < j < |vs| ==> vs[j] == None
        ensures LastSome(vs) == Some(v)
      {
        assert k == n;
      }
    } else {
      var init := vs[..n];
      LastSomeFound(init, v);
      assert LastSome(vs) == LastSome(init);
      if LastSome(vs) == Some(v) {
        var k :| 0 <= k < |init| && init[k] == Some(v) && forall j :: k < j < |init| ==> init[j] == None;
        assert vs[k] == Some(v);
      }
      forall k | 0 <= k < |vs| && vs[k] == Some(v) && forall j :: k < j < |vs| ==> vs[j] == None
        ensures LastSome(vs) == Some(v)
      {
        assert k < n && init[k] == Some(v);
      }
    }
  }

  /** No value present, and only then, means nothing is chosen. */
  lemma {:induction false} LastSomeAbsent(vs: seq<Option<string>>)
    ensures LastSome(vs) == None <==> forall k :: 0 <= k < |vs| ==> vs[k] == None
  {
    if vs != [] {
      var n := |vs| - 1;
      LastSomeAbsent(vs[..n]);
      assert forall k :: 0 <= k < n ==> vs[..n][k] == vs[k];
    }
  }

  /**
   * The vote type is the value of the last pair that splits into exactly two
   * pieces with key "type", and there is none when no pair does.
   */
  lemma VoteTypeIsLastTypePair(q: string, v: string)
    ensures var pairs := Split(q, '&');
            (VoteType(Some(q)) == Some(v) <==>
               exists k :: 0 <= k < |pairs| && TypeValue(pairs[k]) == Some(v) &&
                           forall j :: k < j < |pairs| ==> TypeValue(pairs[j]) == None) &&
            (VoteType(Some(q)) == None <==> forall k :: 0 <= k < |pairs| ==> TypeValue(pairs[k]) == None)
  {
    var pairs := Split(q, '&');
    var vs := PairTypes(pairs);
    LastSomeFound(vs, v);
    LastSomeAbsent(vs);
    assert forall k :: 0 <= k < |pairs| ==> vs[k] == TypeValue(pairs[k]);
  }

  lemma TypePair(v: string)
    requires '=' !in v && v != ""
    ensures TypeValue("type=" + v) == Some(v)
  {
    JoinCons("type", [v], '=');
    assert Join(["type", v], '=') == "type=" + v;
    SplitJoin(["type", v], '=');
    assert EqualsIgnoreCase("type", "type");
  }

  /** A query made of a single `type` pair. */
  lemma SingleTypePair(v: string)
    requires '&' !in v && '=' !in v && v != ""
    ensures VoteType(Some("type=" + v)) == Some(v)
  {
    TypePair(v);
    assert '&' !in "type=" + v;
    assert Split("type=" + v, '&') == ["type=" + v];
    assert PairTypes(["type=" + v])[0] == Some(v);
  }

  /** Whatever comes before it, a `type` pair at the end of the query decides the vote type. */
  lemma LastTypeWins(q: string, v: string)
    requires '&' !in v && '=' !in v && v != ""
    ensures VoteType(Some(q + "&type=" + v)) == Some(v)
  {
    var t := "type=" + v;
    assert '&' !in t;
    assert q + "&type=" + v == q + ['&'] + t;
    RawSplitAppend(q, t, '&');
    assert (q + ['&'] + t)[|q|] == '&';
    var ps := RawSplit(q, '&') + [t];
    assert Split(q + ['&'] + t, '&') == ps;
    TypePair(v);
    var vs := PairTypes(ps);
    assert vs[|vs| - 1] == TypeValue(t);
  }

  /** A pair whose value is empty is not a `type` pair: Java's split drops the empty piece. */
  lemma EmptyValueIgnored(key: string)
    requires '=' !in key
    ensures TypeValue(key + "=") == None
  {
    RawSplitAppend(key, "", '=');
    assert key + ['='] + "" == key + "=";
    assert (key + "=")[|key|] == '=';
    assert RawSplit(key + "=", '=') == [key, ""];
  }

  /** A trailing `=` is dropped by the split too, so `type=up=` still counts as "up". */
  lemma TrailingEqualsIgnored(v: string)
    requires '=' !in v && v != ""
    ensures TypeValue("type=" + v + "=") == Some(v)
  {
    var t := "type=" + v;
    JoinCons("type", [v], '=');
    assert Join(["type", v], '=') == t;
    RawSplitJoin(["type", v], '=');
    RawSplitAppend(t, "", '=');
    assert t + ['='] + "" == "type=" + v + "=";
    assert t[4] == '=';
    var raw := ["type", v, ""];
    assert RawSplit("type=" + v + "=", '=') == raw;
    assert raw[..2] == ["type", v];
    assert Split("type=" + v + "=", '=') == ["type", v];
    assert EqualsIgnoreCase("type", "type");
  }

  /**
   * The query `type=v` votes up exactly when v is "up" in any case, down exactly
   * when it is "down", and is a bad request for every other value.
   */
  lemma SingleTypeVote(v: string)
    requires '&' !in v && '=' !in v && v != ""
    ensures VoteDelta(VoteType(Some("type=" + v))) == Some(1) <==> EqualsIgnoreCase(v, "up")
    ensures VoteDelta(VoteType(Some("type=" + v))) == Some(-1) <==> EqualsIgnoreCase(v, "down")
    ensures VoteDelta(VoteType(Some("type=" + v))) == None <==>
              !EqualsIgnoreCase(v, "up") && !EqualsIgnoreCase(v, "down")
  {
    SingleTypePair(v);
  }

  // ---------------------------------------------------------------- store

  /** A note with the id and none before it is the one found. */
  lemma IndexOfFirst(notes: seq<NoteJson>, id: int, k: nat)
    requires k < |notes| && notes[k].id == id
    requires forall j :: 0 <= j < k ==> notes[j].id != id
    ensures IndexOfId(notes, id) == Some(k)
  {
  }

  /** With unique ids, the first note with an id is the only one. */
  lemma IndexOfUniqueId(st: State, id: int, k: nat)
    requires Inv(st) && k < |st.notes| && st.notes[k].id == id
    ensures IndexOfId(st.notes, id) == Some(k)
  {
  }

  /**
   * A create with a usable body appends one note at the end, with the next id,
   * no votes and the given text, and advances the counter; otherwise it answers
   * 500 and changes nothing.
   */
  lemma CreateAppends(st: State, body: Body)
    requires Inv(st)
    ensures var s := CreateSpec(st, body);
            Inv(s.state) &&
            match BodyText(body)
            case None => s == Step(st, Status(500))
            case Some(text) =>
              s.state.counter == st.counter + 1 &&
              |s.state.notes| == |st.notes| + 1 &&
              s.state.notes[..|st.notes|] == st.notes &&
              s.state.notes[|st.notes|] == NoteJson(st.counter + 1, text, 0) &&
              (forall i :: 0 <= i < |st.notes| ==> st.notes[i].id < st.counter + 1) &&
              s.response == Response(200, OneNote(s.state.notes[|st.notes|]))
  {
    var s := CreateSpec(st, body);
    if BodyText(body).Some? {
      assert s.state.notes[..|st.notes|] == st.notes;
    }
  }

  /**
   * Delete removes exactly the note with the id, keeps the others in order and
   * answers 204; when no note has the id it answers 500 and changes nothing.
   */
  lemma DeleteRemoves(st: State, id: int)
    requires Inv(st)
    ensures var s := DeleteSpec(st, id);
            Inv(s.state) && s.state.counter == st.counter &&
            if HasId(st, id) then
              s.response == Status(204) &&
              |s.state.notes| == |st.notes| - 1 &&
              !HasId(s.state, id) &&
              (exists k :: 0 <= k < |st.notes| && st.notes[k].id == id &&
                           s.state.notes == st.notes[..k] + st.notes[k + 1..])
            else s == Step(st, Status(500))
  {
    if HasId(st, id) {
      var k :| 0 <= k < |st.notes| && st.notes[k].id == id;
      DeleteAt(st, id, k);
    }
  }

  /** Deleting the note at `k`: the rest keep their order and the invariant, and none has the id. */
  lemma DeleteAt(st: State, id: int, k: nat)
    requires Inv(st) && k < |st.notes| && st.notes[k].id == id
    ensures var rest := st.notes[..k] + st.notes[k + 1..];
            DeleteSpec(st, id) == Step(st.(notes := rest), Status(204)) &&
            Inv(st.(notes := rest)) &&
            forall i :: 0 <= i < |rest| ==> rest[i].id != id
  {
    IndexOfUniqueId(st, id, k);
    var rest := st.notes[..k] + st.notes[k + 1..];
    forall i, j | 0 <= i < j < |rest| ensures rest[i].id < rest[j].id {
      RemoveAt(st.notes, k, i);
      RemoveAt(st.notes, k, j);
    }
    forall i | 0 <= i < |rest| ensures rest[i].id != id && 1 <= rest[i].id <= st.counter {
      RemoveAt(st.notes, k, i);
    }
  }

  /** Removing the element at `k` shifts the later ones down by one. */
  lemma RemoveAt<T>(s: seq<T>, k: nat, i: nat)
    requires k < |s| && i < |s| - 1
    ensures |s[..k] + s[k + 1..]| == |s| - 1
    ensures (s[..k] + s[k + 1..])[i] == s[if i < k then i else i + 1]
  {
  }

  /** Voting on an id that no note has answers 404 and changes nothing, whatever the query. */
  lemma VoteUnknownId(st: State, id: int, query: Option<string>)
    requires !HasId(st, id)
    ensures VoteSpec(st, id, query) == Step(st, Status(404))
  {
  }

  /**
   * Voting on a present note: a bad or missing type answers 400 and changes nothing;
   * up or down changes that note's votes by exactly one, keeps its id and text,
   * touches no other note, and answers with the changed note.
   */
  lemma VoteOnNote(st: State, id: int, delta: Option<int>, k: nat)
    requires Inv(st) && k < |st.notes| && st.notes[k].id == id
    ensures var s := VoteWith(st, id, delta);
            match delta
            case None => s == Step(st, Status(400))
            case Some(d) =>
              var n := NoteJson(id, st.notes[k].text, st.notes[k].votes + d);
              s == Step(State(st.notes[k := n], st.counter), Response(200, OneNote(n)))
  {
    IndexOfUniqueId(st, id, k);
  }

  /** An up vote followed by a down vote on the same note restores the store. */
  lemma UpThenDownRestores(st: State, id: int, up: Option<string>, down: Option<string>)
    requires Inv(st)
    requires VoteDelta(VoteType(up)) == Some(1) && VoteDelta(VoteType(down)) == Some(-1)
    ensures VoteSpec(VoteSpec(st, id, up).state, id, down).state == st
  {
    var mid := VoteWith(st, id, Some(1)).state;
    assert VoteSpec(st, id, up).state == mid;
    assert VoteSpec(mid, id, down) == VoteWith(mid, id, Some(-1));
    UpThenDownWith(st, id);
  }

  lemma UpThenDownWith(st: State, id: int)
    requires Inv(st)
    ensures VoteWith(VoteWith(st, id, Some(1)).state, id, Some(-1)).state == st
  {
    if HasId(st, id) {
      var k :| 0 <= k < |st.notes| && st.notes[k].id == id;
      IndexOfUniqueId(st, id, k);
      var n := st.notes[k];
      var mid := st.(notes := st.notes[k := n.(votes := n.votes + 1)]);
      assert VoteWith(st, id, Some(1)).state == mid;
      IndexOfFirst(mid.notes, id, k);
      assert mid.notes[k := n] == st.notes;
    }
  }

  /**
   * The store `next` follows from `st` without breaking the invariant or lowering
   * the counter, and every id in it was either in `st` or is above its counter.
   */
  ghost predicate KeepsIds(st: State, next: State)
  {
    Inv(next) && next.counter >= st.counter &&
    forall i :: 0 <= i < |next.notes| ==> HasId(st, next.notes[i].id) || next.notes[i].id > st.counter
  }

  lemma CreateKeepsIds(st: State, body: Body)
    requires Inv(st)
    ensures KeepsIds(st, CreateSpec(st, body).state)
  {
    var next := CreateSpec(st, body).state;
    CreateAppends(st, body);
    forall i | 0 <= i < |next.notes|
      ensures HasId(st, next.notes[i].id) || next.notes[i].id > st.counter
    {
      if i < |st.notes| {
        assert next.notes[i] == st.notes[i];
      }
    }
  }

  lemma VoteKeepsIds(st: State, id: int, delta: Option<int>)
    requires Inv(st)
    ensures KeepsIds(st, VoteWith(st, id, delta).state)
  {
    var next := VoteWith(st, id, delta).state;
    if HasId(st, id) {
      var k :| 0 <= k < |st.notes| && st.notes[k].id == id;
      VoteOnNote(st, id, delta, k);
      forall i | 0 <= i < |next.notes|
        ensures HasId(st, next.notes[i].id)
      {
        assert next.notes[i].id == st.notes[i].id;
      }
    }
  }

  lemma DeleteKeepsIds(st: State, id: int)
    requires Inv(st)
    ensures KeepsIds(st, DeleteSpec(st, id).state)
  {
    var next := DeleteSpec(st, id).state;
    DeleteRemoves(st, id);
    forall i | 0 <= i < |next.notes|
      ensures HasId(st, next.notes[i].id)
    {
      if HasId(st, id) {
        var k :| 0 <= k < |st.notes| && st.notes[k].id == id &&
                 next.notes == st.notes[..k] + st.notes[k + 1..];
        RemoveAt(st.notes, k, i);
      }
    }
  }

  /** Handling any request keeps the invariant, never lowers the counter, and brings in only fresh ids. */
  lemma HandleKeepsIds(st: State, req: Request)
    requires Inv(st)
    ensures KeepsIds(st, HandleSpec(st, req).state)
  {
    match Route(req.verb, req.path)
    case ListNotes =>
    case CreateNote => CreateKeepsIds(st, req.body);
    case VoteOn(id) => VoteKeepsIds(st, id, VoteDelta(VoteType(req.query)));
    case DeleteNote(id) => DeleteKeepsIds(st, id);
    case Fail(_) =>
  }

  /**
   * Over any run of requests the invariant holds and the counter never decreases;
   * an id that was issued and is gone (a deleted note's id) never comes back.
   */
  lemma {:induction false} IdsNeverReused(st: State, reqs: seq<Request>, x: int)
    requires Inv(st) && x <= st.counter && !HasId(st, x)
    ensures Inv(Run(st, reqs)) && Run(st, reqs).counter >= st.counter
    ensures !HasId(Run(st, reqs), x)
  {
    if reqs != [] {
      var prev := Run(st, reqs[..|reqs| - 1]);
      IdsNeverReused(st, reqs[..|reqs| - 1], x);
      HandleKeepsIds(prev, reqs[|reqs| - 1]);
    }
  }

  // ---------------------------------------------------------------- creation order

  function PostNote(text: string): Request
  {
    Request("POST", CollectionPath, None, Object(Str(text)))
  }

  function GetNotes(): Request
  {
    Request("GET", CollectionPath, None, Malformed)
  }

  /** One create request per text, in order. */
  function Creates(texts: seq<string>): (reqs: seq<Request>)
    ensures |reqs| == |texts|
  {
    if texts == [] then [] else Creates(texts[..|texts| - 1]) + [PostNote(texts[|texts| - 1])]
  }

  /** N creates on an empty store list N notes in creation order, with ids 1 to N and no votes. */
  lemma {:induction false} CreatesListInOrder(texts: seq<string>)
    ensures var st := Run(Empty, Creates(texts));
            st.counter == |texts| && |st.notes| == |texts| &&
            (forall i :: 0 <= i < |texts| ==> st.notes[i] == NoteJson(i + 1, Some(texts[i]), 0)) &&
            HandleSpec(st, GetNotes()) == Step(st, Response(200, AllNotes(st.notes)))
  {
    if texts != [] {
      var n := |texts| - 1;
      CreatesListInOrder(texts[..n]);
      var reqs := Creates(texts);
      assert reqs[..n] == Creates(texts[..n]);
      assert Route("POST", CollectionPath) == CreateNote;
    }
  }

  // ---------------------------------------------------------------- a session

  lemma NoteOnePaths()
    ensures Route("POST", "/api/notes/1/vote") == VoteOn(1)
    ensures Route("DELETE", "/api/notes/1") == DeleteNote(1)
  {
    assert IntToString(1) == "1";
    ItemPath("1");
    assert CollectionPath + "/" + "1" + "/vote" == "/api/notes/1/vote";
    assert CollectionPath + "/" + "1" == "/api/notes/1";
    VotePrintedId(1);
    DeletePrintedId(1);
  }

  function BuyMilk(votes: int): NoteJson { NoteJson(1, Some("buy milk"), votes) }

  lemma SessionCreate()
    ensures HandleSpec(Empty, PostNote("buy milk")) ==
            Step(State([BuyMilk(0)], 1), Response(200, OneNote(BuyMilk(0))))
  {
    assert Route("POST", CollectionPath) == CreateNote;
  }

  /** `type=up` is one vote up. */
  lemma TypeUpIsUpvote()
    ensures VoteDelta(VoteType(Some("type=up"))) == Some(1)
  {
    SingleTypePair("up");
    assert "type=" + "up" == "type=up";
    assert VoteDelta(Some("up")) == Some(1);
  }

  lemma UpvoteBuyMilk(query: Option<string>)
    requires VoteDelta(VoteType(query)) == Some(1)
    ensures VoteSpec(State([BuyMilk(0)], 1), 1, query) ==
            Step(State([BuyMilk(1)], 1), Response(200, OneNote(BuyMilk(1))))
  {
    IndexOfFirst([BuyMilk(0)], 1, 0);
  }

  lemma SessionVote()
    ensures HandleSpec(State([BuyMilk(0)], 1), Request("POST", "/api/notes/1/vote", Some("type=up"), Malformed)) ==
            Step(State([BuyMilk(1)], 1), Response(200, OneNote(BuyMilk(1))))
  {
    NoteOnePaths();
    assert Route("POST", "/api/notes/1/vote") == VoteOn(1);
    TypeUpIsUpvote();
    UpvoteBuyMilk(Some("type=up"));
  }

  lemma DeleteBuyMilk()
    ensures DeleteSpec(State([BuyMilk(1)], 1), 1) == Step(State([], 1), Status(204))
  {
    IndexOfFirst([BuyMilk(1)], 1, 0);
  }

  lemma SessionDelete()
    ensures HandleSpec(State([BuyMilk(1)], 1), Request("DELETE", "/api/notes/1", None, Malformed)) ==
            Step(State([], 1), Status(204))
  {
    NoteOnePaths();
    assert Route("DELETE", "/api/notes/1") == DeleteNote(1);
    DeleteBuyMilk();
  }

  lemma SessionList()
    ensures HandleSpec(State([], 1), GetNotes()) == Step(State([], 1), Response(200, AllNotes([])))
  {
    assert Route("GET", CollectionPath) == ListNotes;
  }

  /**
   * Create "buy milk", up-vote it, delete it, list: the answers are the note
   * with id 1 and no votes, the note with one vote, 204, and an empty list.
   */
  lemma BuyMilkSession()
    ensures var s1 := HandleSpec(Empty, PostNote("buy milk"));
            var s2 := HandleSpec(s1.state, Request("POST", "/api/notes/1/vote", Some("type=up"), Malformed));
            var s3 := HandleSpec(s2.state, Request("DELETE", "/api/notes/1", None, Malformed));
            var s4 := HandleSpec(s3.state, GetNotes());
            s1.response == Response(200, OneNote(NoteJson(1, Some("buy milk"), 0))) &&
            s2.response == Response(200, OneNote(NoteJson(1, Some("buy milk"), 1))) &&
            s3.response == Status(204) &&
            s4.response == Response(200, AllNotes([]))
  {
    SessionCreate();
    SessionVote();
    SessionDelete();
    SessionList();
  }
}
