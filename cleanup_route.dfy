/** `POST /api/cleanup`: deletes a list of images one after another and
    reports, for each public id, whether it was deleted. */
module CleanupRoute {
  import opened Wrappers
  import opened Http
  import opened Cloudinary

  /** How `request.json()` completed, seen through its `publicIds`: not
      readable, not an array (absent included), or an array of ids. */
  datatype CleanupRequest = CleanupUnreadable(message: string) | NotAnArray | PublicIds(ids: seq<string>)

  /** One entry of `results`: `{publicId, deleted}`, plus `error` when the
      delete threw. */
  datatype CleanupEntry = CleanupEntry(publicId: string, deleted: bool, error: Option<string>)

  const NotAnArrayMessage := "publicIds must be an array"

  /** The entry the loop pushes for one id, given how its delete call
      completed. */
  function EntryFor(publicId: string, outcome: Result<bool>): CleanupEntry
  {
    match outcome
    case Ok(deleted) => CleanupEntry(publicId, deleted, None)
    case Thrown(m) => CleanupEntry(publicId, false, Some(m))
  }

  /** The `results` array after the loop has visited `ids`, the `i`-th call
      having completed as `outcomes[i]`. */
  function Results(ids: seq<string>, outcomes: seq<Result<bool>>): (r: seq<CleanupEntry>)
    requires |outcomes| == |ids|
    ensures |r| == |ids|
  {
    if ids == [] then []
    else Results(ids[..|ids| - 1], outcomes[..|ids| - 1]) + [EntryFor(ids[|ids| - 1], outcomes[|ids| - 1])]
  }

  /** The response of the handler as a function of the request and of how
      each delete call completed. */
  function CleanupResponse(request: CleanupRequest, outcomes: seq<Result<bool>>): Reply<seq<CleanupEntry>>
    requires request.PublicIds? ==> |outcomes| == |request.ids|
  {
    match request
    case CleanupUnreadable(m) => Crash("Cleanup failed", m)
    case NotAnArray => Refuse(BadRequest400, NotAnArrayMessage)
    case PublicIds(ids) => Answer(Results(ids, outcomes))
  }

  /** The handler, loop and all: `attempted` lists the ids passed to
      `deleteImage`, in call order. */
  method Cleanup(request: CleanupRequest, outcomes: seq<Result<bool>>)
    returns (attempted: seq<string>, response: Reply<seq<CleanupEntry>>)
    requires request.PublicIds? ==> |outcomes| == |request.ids|
    ensures response == CleanupResponse(request, outcomes)
    ensures attempted == (if request.PublicIds? then request.ids else [])
  {
    attempted := [];
    match request {
      case CleanupUnreadable(m) =>
        response := Crash("Cleanup failed", m);
      case NotAnArray =>
        response := Refuse(BadRequest400, NotAnArrayMessage);
      case PublicIds(ids) =>
        var results: seq<CleanupEntry> := [];
        var i := 0;
        while i < |ids|
          invariant 0 <= i <= |ids|
          invariant attempted == ids[..i]
          invariant results == Results(ids[..i], outcomes[..i])
        {
          var publicId := ids[i];
          attempted := attempted + [publicId];
          match outcomes[i] {
            case Ok(deleted) =>
              results := results + [CleanupEntry(publicId, deleted, None)];
            case Thrown(m) =>
              results := results + [CleanupEntry(publicId, false, Some(m))];
          }
          assert ids[..i + 1][..i] == ids[..i] && outcomes[..i + 1][..i] == outcomes[..i];
          i := i + 1;
        }
        assert ids[..i] == ids && outcomes[..i] == outcomes;
        response := Answer(results);
    }
  }

  // ---------------------------------------------------------------------
  // Properties
  // ---------------------------------------------------------------------

  /** One entry per id, in input order: entry `i` names `ids[i]`, is
      deleted exactly when that call returned true, and carries an error
      exactly when that call threw, with its message. */
  lemma {:induction false} ResultsAt(ids: seq<string>, outcomes: seq<Result<bool>>, i: nat)
    requires |outcomes| == |ids|
    ensures i < |ids| ==>
      var e := Results(ids, outcomes)[i];
      && e.publicId == ids[i]
      && (e.deleted <==> outcomes[i] == Ok(true))
      && (e.error.Some? <==> outcomes[i].Thrown?)
      && (outcomes[i].Thrown? ==> e.error == Some(outcomes[i].message))
    decreases |ids|
  {
    if ids != [] {
      var n := |ids| - 1;
      ResultsAt(ids[..n], outcomes[..n], i);
      if i < n {
        assert Results(ids, outcomes)[i] == Results(ids[..n], outcomes[..n])[i];
        assert ids[..n][i] == ids[i] && outcomes[..n][i] == outcomes[i];
      }
    }
  }

  /** The three ways the handler answers: 500 with the message when the body
      cannot be read, 400 with no delete when `publicIds` is not an array,
      and otherwise `success: true` with one result per id; an empty list
      answers with empty results. */
  lemma CleanupAnswers(request: CleanupRequest, outcomes: seq<Result<bool>>)
    requires request.PublicIds? ==> |outcomes| == |request.ids|
    ensures var r := CleanupResponse(request, outcomes);
      && (r.status == ServerError500 <==> request.CleanupUnreadable?)
      && (request.CleanupUnreadable? ==> r.body == Failure("Cleanup failed", Some(request.message)))
      && (r == Refuse(BadRequest400, "publicIds must be an array") <==> request.NotAnArray?)
      && (r.status == Ok200 <==> request.PublicIds?)
      && (request.PublicIds? ==> r.body.Success? && |r.body.data| == |request.ids|)
      && (request == PublicIds([]) ==> r.body == Success([]))
  {
  }

  /** A throw for one id changes that id's entry only: the entries of the
      other ids are the same whatever that call did. */
  lemma ThrowIsolated(ids: seq<string>, outcomes: seq<Result<bool>>, k: nat, other: Result<bool>, i: nat)
    requires |outcomes| == |ids| && k < |ids| && i < |ids| && i != k
    ensures Results(ids, outcomes)[i] == Results(ids, outcomes[k := other])[i]
  {
    ResultsAt(ids, outcomes, i);
    ResultsAt(ids, outcomes[k := other], i);
  }

  /** How each `deleteImage` call completes: it catches every error itself,
      so it always returns. */
  function DeleteImageOutcomes(u: Uploader, ids: seq<string>, clocks: seq<nat>, sha1Hex: string -> string, replies: seq<DestroyReply>)
    : (r: seq<Result<bool>>)
    requires |clocks| == |ids| && |replies| == |ids|
    ensures |r| == |ids|
    ensures forall i :: 0 <= i < |ids| ==> r[i] == Ok(u.DeleteImage(ids[i], clocks[i], sha1Hex, replies[i]).deleted)
  {
    seq(|ids|, i requires 0 <= i < |ids| => Ok(u.DeleteImage(ids[i], clocks[i], sha1Hex, replies[i]).deleted))
  }

  /** With the modelled `deleteImage`, the loop's catch branch is never
      taken: no entry carries an error, and an entry is deleted exactly when
      the host answered `'ok'` for its id. */
  lemma CleanupWithDeleteImage(u: Uploader, ids: seq<string>, clocks: seq<nat>, sha1Hex: string -> string,
                               replies: seq<DestroyReply>, i: nat)
    requires |clocks| == |ids| && |replies| == |ids| && i < |ids|
    ensures var e := Results(ids, DeleteImageOutcomes(u, ids, clocks, sha1Hex, replies))[i];
      && e.publicId == ids[i] && e.error.None?
      && (e.deleted <==> replies[i] == DestroyReplied(Some("ok")))
  {
    ResultsAt(ids, DeleteImageOutcomes(u, ids, clocks, sha1Hex, replies), i);
    DeleteOutcomeRule(u, ids[i], clocks[i], sha1Hex, replies[i]);
  }
}
