/**
 * The library a new paper is synthesized against: every approved paper other
 * than the paper itself, with its stored tag list decoded (a null tag column
 * counts as the empty list).
 */
module Peers {
  import opened Wrappers
  import opened AgentTypes
  import opened Store

  /** `JSON.parse(tags || '[]')`, and the `join` the prompt then calls on it, which needs an array. */
  function DecodeTags(t: StoredTags): (r: Result<seq<string>>)
    ensures t.NoTags? ==> r == Success([])
    ensures t.TagList? ==> r == Success(t.tags)
    ensures t.NonArray? || t.Unparsable? ==> r.Failure?
  {
    match t
    case NoTags => Success([])
    case TagList(tags) => Success(tags)
    case NonArray => Failure("stored tags are not an array")
    case Unparsable => Failure("stored tags are not valid JSON")
  }

  /** The query's condition: curator status `approved` and a different id. */
  predicate IsPeer(row: PaperRow, id: string) {
    row.fields.curatorStatus == Approved && row.fields.id != id
  }

  /** The rows the query returns, in table order. */
  function PeerRows(rows: seq<PaperRow>, id: string): seq<PaperRow> {
    if rows == [] then []
    else (if IsPeer(rows[0], id) then [rows[0]] else []) + PeerRows(rows[1..], id)
  }

  /** The peer list handed to the synthesizer; an undecodable tag column aborts the request. */
  function ApprovedPeers(rows: seq<PaperRow>, id: string): Result<seq<PeerBrief>> {
    if rows == [] then Success([])
    else
      var rest := ApprovedPeers(rows[1..], id);
      if !IsPeer(rows[0], id) then rest
      else match DecodeTags(rows[0].fields.domainTags)
        case Failure(e) => Failure(e)
        case Success(tags) =>
          if rest.Failure? then rest else Success([PeerBrief(rows[0].fields.id, rows[0].fields.title, tags)] + rest.value)
  }

  /** A row is returned by the query exactly when it is an approved paper with another id. */
  lemma {:induction false} PeerRowsExact(rows: seq<PaperRow>, id: string)
    ensures forall r :: r in PeerRows(rows, id) <==> r in rows && IsPeer(r, id)
    decreases |rows|
  {
    if rows != [] {
      PeerRowsExact(rows[1..], id);
      assert rows == [rows[0]] + rows[1..];
    }
  }

  /**
   * When every returned row's tags decode, the peers are those rows in order,
   * with their ids, titles and decoded tags; otherwise the request fails.
   */
  lemma {:induction false} ApprovedPeersMatchRows(rows: seq<PaperRow>, id: string)
    ensures var peers := PeerRows(rows, id);
      (ApprovedPeers(rows, id).Failure? <==> exists k :: 0 <= k < |peers| && DecodeTags(peers[k].fields.domainTags).Failure?) &&
      (ApprovedPeers(rows, id).Success? ==>
        |ApprovedPeers(rows, id).value| == |peers| &&
        forall k :: 0 <= k < |peers| ==>
          ApprovedPeers(rows, id).value[k] ==
            PeerBrief(peers[k].fields.id, peers[k].fields.title, DecodeTags(peers[k].fields.domainTags).value))
    decreases |rows|
  {
    if rows != [] {
      ApprovedPeersMatchRows(rows[1..], id);
      var tail := PeerRows(rows[1..], id);
      if IsPeer(rows[0], id) {
        var peers := PeerRows(rows, id);
        var whole := ApprovedPeers(rows, id);
        var rest := ApprovedPeers(rows[1..], id);
        assert peers == [rows[0]] + tail;
        assert forall k :: 0 < k < |peers| ==> peers[k] == tail[k - 1];
        assert peers[0] == rows[0];
        var tailFails := exists k :: 0 <= k < |tail| && DecodeTags(tail[k].fields.domainTags).Failure?;
        var peersFail := exists k :: 0 <= k < |peers| && DecodeTags(peers[k].fields.domainTags).Failure?;
        if tailFails {
          var k :| 0 <= k < |tail| && DecodeTags(tail[k].fields.domainTags).Failure?;
          assert peers[k + 1] == tail[k];
        }
        if peersFail {
          var k :| 0 <= k < |peers| && DecodeTags(peers[k].fields.domainTags).Failure?;
          if k > 0 {
            assert tail[k - 1] == peers[k];
          }
        }
        if DecodeTags(rows[0].fields.domainTags).Failure? {
          assert whole.Failure? && peersFail;
        } else {
          assert whole.Failure? <==> rest.Failure?;
          assert peersFail <==> tailFails;
        }
      } else {
        assert PeerRows(rows, id) == tail;
      }
    }
  }

  /** The paper itself is never among its peers, and every peer is approved. */
  lemma PeersExcludeSelf(rows: seq<PaperRow>, id: string)
    ensures ApprovedPeers(rows, id).Success? ==>
      forall k :: 0 <= k < |ApprovedPeers(rows, id).value| ==> ApprovedPeers(rows, id).value[k].id != id
  {
    ApprovedPeersMatchRows(rows, id);
    PeerRowsExact(rows, id);
    var peers := PeerRows(rows, id);
    assert forall k :: 0 <= k < |peers| ==> peers[k] in peers;
  }
}
