/** The bookmark list of the "My Progress" page as pure functions over a
    sequence of bookmarks: the state a hook would hold, without storage or
    notifications. */
module Bookmarks {
  import opened Types
  import Text

  /** The identifier of a resource: name and address joined by a hyphen,
      each whitespace run replaced by a hyphen, then lower-cased. */
  function BookmarkId(r: Resource): (id: string)
    ensures Text.NoSpace(id) && Text.NoUpper(id)
    ensures |id| <= |r.name| + 1 + |r.address|
  {
    Text.Normalize(r.name + "-" + r.address)
  }

  /** Deriving an identifier from an identifier gives it back. */
  lemma BookmarkIdIdempotent(r: Resource)
    ensures Text.Normalize(BookmarkId(r)) == BookmarkId(r)
  {
    Text.NormalizeIdempotent(r.name + "-" + r.address);
  }

  /** Some entry of the list carries identifier `id`. */
  predicate HasId(bs: seq<Bookmark>, id: string) {
    exists i :: 0 <= i < |bs| && bs[i].id == id
  }

  /** An identifier found in the tail is found in the list. */
  lemma HasIdTail(bs: seq<Bookmark>, id: string)
    requires bs != []
    ensures HasId(bs[1..], id) ==> HasId(bs, id)
  {
    if HasId(bs[1..], id) {
      var k :| 0 <= k < |bs| - 1 && bs[1..][k].id == id;
      assert bs[k + 1] == bs[1..][k];
    }
  }

  /** No two entries share an identifier. */
  predicate UniqueIds(bs: seq<Bookmark>) {
    forall i, j :: 0 <= i < j < |bs| ==> bs[i].id != bs[j].id
  }

  /** Whether the resource is on the list, using the same identifier that
      adding it would use. */
  predicate IsBookmarked(bs: seq<Bookmark>, r: Resource): (b: bool)
    ensures b <==> exists bk :: bk in bs && bk.id == BookmarkId(r)
  {
    HasId(bs, BookmarkId(r))
  }

  /** Adds the resource, not yet started, at the end of the list unless an
      entry with its identifier is already there. */
  function AddBookmark(bs: seq<Bookmark>, r: Resource): (res: seq<Bookmark>)
    ensures IsBookmarked(res, r)
    ensures IsBookmarked(bs, r) ==> res == bs
    ensures !IsBookmarked(bs, r) ==>
      && |res| == |bs| + 1
      && res[..|bs|] == bs
      && res[|bs|].ResourceOf() == r
      && res[|bs|].id == BookmarkId(r)
      && res[|bs|].status == NotStarted
  {
    var id := BookmarkId(r);
    if HasId(bs, id) then bs
    else
      var res := bs + [Bookmark(r.name, r.description, r.address, r.contact, r.eligibility, id, NotStarted)];
      assert res[|bs|].id == id;
      res
  }

  /** Keeps, in their order, exactly the entries whose identifier differs
      from `id`. */
  function RemoveBookmark(bs: seq<Bookmark>, id: string): (res: seq<Bookmark>)
    ensures !HasId(res, id)
    ensures forall b :: b in res <==> b in bs && b.id != id
    ensures IsSubsequence(res, bs)
    ensures |res| == |bs| - CountId(bs, id)
  {
    if bs == [] then []
    else if bs[0].id != id then [bs[0]] + RemoveBookmark(bs[1..], id)
    else RemoveBookmark(bs[1..], id)
  }

  /** The number of entries carrying identifier `id`. */
  function CountId(bs: seq<Bookmark>, id: string): (n: nat)
    ensures n <= |bs|
    ensures n == 0 <==> !HasId(bs, id)
  {
    if bs == [] then 0
    else (if bs[0].id == id then 1 else 0) + CountId(bs[1..], id)
  }

  /** `a` is `b` with some entries left out and the rest in their order. */
  predicate IsSubsequence(a: seq<Bookmark>, b: seq<Bookmark>)
    decreases |b|
  {
    a == [] || (b != [] && if a[0] == b[0] then IsSubsequence(a[1..], b[1..]) else IsSubsequence(a, b[1..]))
  }

  /** Sets the status of the entries with identifier `id`; every other entry
      and every other field stays as it was. */
  function UpdateBookmarkStatus(bs: seq<Bookmark>, id: string, s: Status): (res: seq<Bookmark>)
    ensures |res| == |bs|
    ensures forall i :: 0 <= i < |bs| ==> res[i].id == bs[i].id && res[i].ResourceOf() == bs[i].ResourceOf()
    ensures forall i :: 0 <= i < |bs| && bs[i].id == id ==> res[i].status == s
    ensures forall i :: 0 <= i < |bs| && bs[i].id != id ==> res[i] == bs[i]
  {
    seq(|bs|, i requires 0 <= i < |bs| => if bs[i].id == id then bs[i].(status := s) else bs[i])
  }

  /** Adding keeps identifiers unique. */
  lemma AddPreservesUnique(bs: seq<Bookmark>, r: Resource)
    requires UniqueIds(bs)
    ensures UniqueIds(AddBookmark(bs, r))
  {
  }

  /** In a list with unique identifiers, the tail is unique too and holds no
      entry sharing the head's identifier. */
  lemma UniqueSplit(bs: seq<Bookmark>)
    requires bs != [] && UniqueIds(bs)
    ensures UniqueIds(bs[1..])
    ensures forall b :: b in bs[1..] ==> b.id != bs[0].id
  {
    forall b | b in bs[1..] ensures b.id != bs[0].id {
      var k :| 0 <= k < |bs| - 1 && bs[1..][k] == b;
      assert bs[k + 1] == b;
    }
  }

  /** Removing keeps identifiers unique. */
  lemma {:induction false} RemovePreservesUnique(bs: seq<Bookmark>, id: string)
    requires UniqueIds(bs)
    ensures UniqueIds(RemoveBookmark(bs, id))
    decreases |bs|
  {
    if bs != [] {
      UniqueSplit(bs);
      RemovePreservesUnique(bs[1..], id);
      var rest := RemoveBookmark(bs[1..], id);
      if bs[0].id != id {
        var res := [bs[0]] + rest;
        forall i, j | 0 <= i < j < |res| ensures res[i].id != res[j].id {
          assert res[j] == rest[j - 1];
          if i > 0 {
            assert res[i] == rest[i - 1];
          }
        }
      }
    }
  }

  /** Updating a status keeps identifiers unique. */
  lemma UpdatePreservesUnique(bs: seq<Bookmark>, id: string, s: Status)
    requires UniqueIds(bs)
    ensures UniqueIds(UpdateBookmarkStatus(bs, id, s))
  {
  }

  /** Removing an identifier that is not on the list changes nothing. */
  lemma {:induction false} RemoveAbsentNoop(bs: seq<Bookmark>, id: string)
    requires !HasId(bs, id)
    ensures RemoveBookmark(bs, id) == bs
    decreases |bs|
  {
    if bs != [] {
      assert bs[0].id != id;
      HasIdTail(bs, id);
      RemoveAbsentNoop(bs[1..], id);
      assert bs == [bs[0]] + bs[1..];
    }
  }

  /** Removing twice is removing once. */
  lemma RemoveIdempotent(bs: seq<Bookmark>, id: string)
    ensures RemoveBookmark(RemoveBookmark(bs, id), id) == RemoveBookmark(bs, id)
  {
    RemoveAbsentNoop(RemoveBookmark(bs, id), id);
  }

  /** Removing from a list with one more entry at the end removes from the
      list and keeps that entry only if its identifier differs. */
  lemma {:induction false} RemoveSnoc(bs: seq<Bookmark>, x: Bookmark, id: string)
    ensures RemoveBookmark(bs + [x], id) == RemoveBookmark(bs, id) + (if x.id != id then [x] else [])
    decreases |bs|
  {
    if bs == [] {
      assert bs + [x] == [x];
      assert [x][1..] == [];
    } else {
      assert (bs + [x])[0] == bs[0];
      assert (bs + [x])[1..] == bs[1..] + [x];
      RemoveSnoc(bs[1..], x, id);
    }
  }

  /** Adding a resource that was not on the list and then removing its
      identifier gives back the original list. */
  lemma RemoveUndoesAdd(bs: seq<Bookmark>, r: Resource)
    requires !IsBookmarked(bs, r)
    ensures RemoveBookmark(AddBookmark(bs, r), BookmarkId(r)) == bs
  {
    var id := BookmarkId(r);
    var nb := AddBookmark(bs, r)[|bs|];
    assert AddBookmark(bs, r) == bs + [nb];
    RemoveSnoc(bs, nb, id);
    RemoveAbsentNoop(bs, id);
  }

  /** The membership test and the duplicate check of adding agree: adding
      leaves the list unchanged exactly when the resource is bookmarked. */
  lemma IsBookmarkedIffAddNoop(bs: seq<Bookmark>, r: Resource)
    ensures IsBookmarked(bs, r) <==> AddBookmark(bs, r) == bs
  {
    if !IsBookmarked(bs, r) {
      assert |AddBookmark(bs, r)| == |bs| + 1;
    }
  }

  /** The status last set wins: a second update overrides the first. */
  lemma UpdateLastWins(bs: seq<Bookmark>, id: string, s1: Status, s2: Status)
    ensures UpdateBookmarkStatus(UpdateBookmarkStatus(bs, id, s1), id, s2) == UpdateBookmarkStatus(bs, id, s2)
  {
  }

  /** Updating a status changes neither which resources are bookmarked nor
      the set of identifiers. */
  lemma UpdateKeepsBookmarked(bs: seq<Bookmark>, id: string, s: Status, r: Resource)
    ensures IsBookmarked(UpdateBookmarkStatus(bs, id, s), r) <==> IsBookmarked(bs, r)
  {
    var res := UpdateBookmarkStatus(bs, id, s);
    if IsBookmarked(bs, r) {
      var k :| 0 <= k < |bs| && bs[k].id == BookmarkId(r);
      assert res[k].id == BookmarkId(r);
    }
    if IsBookmarked(res, r) {
      var k :| 0 <= k < |res| && res[k].id == BookmarkId(r);
      assert bs[k].id == BookmarkId(r);
    }
  }
}
