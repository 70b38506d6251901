/**
 * The comment document (api/models/comment.model.js): its status enumeration
 * and defaults, the trimmed content bounds, the reaction virtuals, and the
 * pre-save hook that resynchronises the like and dislike counters with their
 * arrays. Moderation fields, user agent, IP address and timestamps are not
 * modelled.
 */
module CommentModel {
  import opened Wrappers
  import opened Text
  import Validation

  datatype CommentStatus = Pending | Approved | Spam | Deleted

  function StatusName(s: CommentStatus): string {
    match s
    case Pending => "pending"
    case Approved => "approved"
    case Spam => "spam"
    case Deleted => "deleted"
  }

  /** The status enumeration's validator. */
  function ParseStatus(s: string): (r: Option<CommentStatus>)
    ensures r.Some? ==> StatusName(r.value) == s
    ensures forall st :: StatusName(st) == s ==> r == Some(st)
  {
    if s == "pending" then Some(Pending)
    else if s == "approved" then Some(Approved)
    else if s == "spam" then Some(Spam)
    else if s == "deleted" then Some(Deleted)
    else None
  }

  /** A stored comment; the counters are plain numbers that the hook keeps in step with the arrays. */
  datatype Comment = Comment(
    id: string,
    content: string,
    postId: string,
    userId: string,
    parentId: Option<string>,
    status: CommentStatus,
    isEdited: bool,
    likes: seq<string>,
    dislikes: seq<string>,
    numberOfLikes: int,
    numberOfDislikes: int,
    numberOfReplies: int)

  /**
   * The `content` path: the `trim` setter, then `required`, `minlength: 1`
   * and `maxlength: 1000` on the trimmed value.
   */
  function StoreContent(raw: string): (r: Option<string>)
    ensures r.Some? <==> 1 <= |Trim(raw)| <= 1000
    ensures r.Some? ==> r.value == Trim(raw)
  {
    var t := Trim(raw);
    if 1 <= |t| <= 1000 then Some(t) else None
  }

  /**
   * The schema accepts exactly the contents `validateCommentContent` accepts,
   * and stores the same trimmed text (before HTML sanitising).
   */
  lemma {:induction false} StoreContentMatchesValidator(raw: string)
    ensures StoreContent(raw).Some? <==> Validation.ValidateCommentContent(Validation.Str(raw), s => s).Ok?
    ensures StoreContent(raw).Some? ==>
              StoreContent(raw).value == Validation.ValidateCommentContent(Validation.Str(raw), s => s).value
  {
    if raw == "" {
      assert Trim(raw) == "";
    }
  }

  /** A new comment with the schema's defaults. */
  function NewComment(id: string, content: string, postId: string, userId: string): (c: Comment)
    ensures c.parentId.None? && c.status == Approved && !c.isEdited
    ensures c.likes == [] && c.dislikes == []
    ensures c.numberOfLikes == 0 && c.numberOfDislikes == 0 && c.numberOfReplies == 0
    ensures Synced(c)
  {
    Comment(id, content, postId, userId, None, Approved, false, [], [], 0, 0, 0)
  }

  /** The `totalReactions` virtual. */
  function TotalReactions(c: Comment): int {
    c.numberOfLikes + c.numberOfDislikes
  }

  /** The `reactionScore` virtual. */
  function ReactionScore(c: Comment): int {
    c.numberOfLikes - c.numberOfDislikes
  }

  /** Both counters agree with their arrays. */
  predicate Synced(c: Comment) {
    c.numberOfLikes == |c.likes| && c.numberOfDislikes == |c.dislikes|
  }

  /** On a synced comment the virtuals count the reactions themselves. */
  lemma {:induction false} SyncedReactions(c: Comment)
    requires Synced(c)
    ensures TotalReactions(c) == |c.likes| + |c.dislikes|
    ensures ReactionScore(c) == |c.likes| - |c.dislikes|
    ensures -|c.dislikes| <= ReactionScore(c) <= |c.likes| && ReactionScore(c) <= TotalReactions(c)
  {
  }

  /** Document paths whose modification the pre-save hook looks at. */
  datatype CommentPath = LikesPath | DislikesPath

  /** The effect of the pre-save hook on a comment whose modified paths are `modified`. */
  function Resynced(c: Comment, modified: set<CommentPath>): (r: Comment)
    ensures r.numberOfLikes == if LikesPath in modified then |c.likes| else c.numberOfLikes
    ensures r.numberOfDislikes == if DislikesPath in modified then |c.dislikes| else c.numberOfDislikes
    ensures r.(numberOfLikes := c.numberOfLikes, numberOfDislikes := c.numberOfDislikes) == c
  {
    var c1 := if LikesPath in modified then c.(numberOfLikes := |c.likes|) else c;
    if DislikesPath in modified then c1.(numberOfDislikes := |c1.dislikes|) else c1
  }

  /** A save that modifies neither array changes nothing. */
  lemma {:induction false} ResyncUntouched(c: Comment)
    ensures Resynced(c, {}) == c
  {
  }

  /** Saving twice with the same modified paths is the same as saving once. */
  lemma {:induction false} ResyncIdempotent(c: Comment, modified: set<CommentPath>)
    ensures Resynced(Resynced(c, modified), modified) == Resynced(c, modified)
  {
  }

  /** A save that modified both arrays leaves the comment synced, and keeps a synced comment synced whatever was modified. */
  lemma {:induction false} ResyncSyncs(c: Comment, modified: set<CommentPath>)
    ensures modified == {LikesPath, DislikesPath} ==> Synced(Resynced(c, modified))
    ensures Synced(c) ==> Resynced(c, modified) == c
  {
  }

  /** A mongoose comment document during `save()`. */
  class CommentDocument {
    var comment: Comment
    var modified: set<CommentPath>

    /** A new document: both arrays count as modified. */
    constructor Create(c: Comment)
      ensures comment == c && modified == {LikesPath, DislikesPath}
    {
      comment := c;
      modified := {LikesPath, DislikesPath};
    }

    /** Records a new likes array, as `comment.likes = ...` would. */
    method SetLikes(likes: seq<string>)
      modifies this
      ensures comment == old(comment).(likes := likes)
      ensures modified == old(modified) + {LikesPath}
    {
      comment := comment.(likes := likes);
      modified := modified + {LikesPath};
    }

    /** The pre-save hook. */
    method PreSave()
      modifies this`comment
      ensures comment == Resynced(old(comment), modified)
      ensures LikesPath in modified ==> comment.numberOfLikes == |comment.likes|
      ensures DislikesPath in modified ==> comment.numberOfDislikes == |comment.dislikes|
    {
      if LikesPath in modified {
        comment := comment.(numberOfLikes := |comment.likes|);
      }
      if DislikesPath in modified {
        comment := comment.(numberOfDislikes := |comment.dislikes|);
      }
    }
  }
}
