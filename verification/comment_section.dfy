/**
 * The comment list transforms of client/src/components/CommentSection.jsx.
 * Each handler is a function from the current list (and the outcome of its
 * request, given as an input) to the new list; React state, rendering and
 * navigation are reduced to the values they would be set to.
 */
module CommentSection {
  import opened Wrappers
  import opened CommentModel

  const MaxDraftLength: nat := 200

  /** How a request ended: a response with `res.ok` true and its body, a response that is not ok, or a thrown error. */
  datatype Outcome<T> = Success(data: T) | NotOk | Thrown(message: string)

  /** The message a handler records in `commentError`. */
  datatype CommentError =
    | RequestError(message: string)
    | NoCurrentUser  // `currentUser._id` read while signed out

  /** The component's state that `handleSubmit` touches. */
  datatype SubmitState = SubmitState(draft: string, error: Option<CommentError>, comments: seq<Comment>)

  /**
   * `handleSubmit`: a draft over 200 characters is ignored; a signed-out
   * user fails before any request; otherwise the request's outcome decides.
   * Returns the new state and whether a request was sent.
   */
  function HandleSubmit(st: SubmitState, signedIn: bool, outcome: Outcome<Comment>): (r: (SubmitState, bool))
    ensures |st.draft| > MaxDraftLength ==> r == (st, false)
    ensures r.1 <==> |st.draft| <= MaxDraftLength && signedIn
    ensures r.0.comments == st.comments || (r.1 && outcome.Success? && r.0.comments == [outcome.data] + st.comments)
    ensures r.1 && outcome.Success? ==> r.0 == SubmitState("", None, [outcome.data] + st.comments)
    ensures r.1 && outcome.NotOk? ==> r.0 == st
    ensures r.1 && outcome.Thrown? ==> r.0 == st.(error := Some(RequestError(outcome.message)))
    ensures |st.draft| <= MaxDraftLength && !signedIn ==> r.0 == st.(error := Some(NoCurrentUser))
  {
    if |st.draft| > MaxDraftLength then (st, false)
    else if !signedIn then (st.(error := Some(NoCurrentUser)), false)
    else
      match outcome
      case Success(data) => (SubmitState("", None, [data] + st.comments), true)
      case NotOk => (st, true)
      case Thrown(message) => (st.(error := Some(RequestError(message))), true)
  }

  /** Replaces every comment with id `id` by `f` of it, leaving the others and the order as they were. */
  function UpdateWhere(comments: seq<Comment>, id: string, f: Comment -> Comment): (r: seq<Comment>)
    ensures |r| == |comments|
    ensures forall i :: 0 <= i < |r| ==> r[i] == if comments[i].id == id then f(comments[i]) else comments[i]
  {
    seq(|comments|, i requires 0 <= i < |comments| => if comments[i].id == id then f(comments[i]) else comments[i])
  }

  /**
   * `handleLike`: signed out, the list is unchanged and the user is sent to
   * sign in; on success the matching comments take the server's likes array
   * and its length as their count. Returns the new list and whether the
   * user was sent to sign in.
   */
  function HandleLike(comments: seq<Comment>, signedIn: bool, commentId: string, outcome: Outcome<seq<string>>)
    : (r: (seq<Comment>, bool))
    ensures r.1 <==> !signedIn
    ensures !(signedIn && outcome.Success?) ==> r.0 == comments
    ensures |r.0| == |comments|
    ensures signedIn && outcome.Success? ==> forall i :: 0 <= i < |comments| ==>
              if comments[i].id == commentId then
                r.0[i] == comments[i].(likes := outcome.data, numberOfLikes := |outcome.data|)
              else r.0[i] == comments[i]
  {
    if !signedIn then (comments, true)
    else if outcome.Success? then
      (UpdateWhere(comments, commentId, (c: Comment) => c.(likes := outcome.data, numberOfLikes := |outcome.data|)), false)
    else (comments, false)
  }

  /** A like keeps a synced comment synced. */
  lemma {:induction false} LikeKeepsSynced(comments: seq<Comment>, commentId: string, likes: seq<string>, i: int)
    requires 0 <= i < |comments| && Synced(comments[i])
    ensures Synced(HandleLike(comments, true, commentId, Success(likes)).0[i])
  {
  }

  /** `handleEdit`: only the content of the matching comments changes. */
  function HandleEdit(comments: seq<Comment>, target: Comment, editedContent: string): (r: seq<Comment>)
    ensures |r| == |comments|
    ensures forall i :: 0 <= i < |comments| ==>
              if comments[i].id == target.id then r[i] == comments[i].(content := editedContent)
              else r[i] == comments[i]
  {
    UpdateWhere(comments, target.id, (c: Comment) => c.(content := editedContent))
  }

  /** `comments.filter(c => c._id !== id)`. */
  function WithoutId(comments: seq<Comment>, id: string): (r: seq<Comment>)
    ensures |r| <= |comments|
  {
    if comments == [] then []
    else
      var rest := WithoutId(comments[1..], id);
      if comments[0].id == id then rest else [comments[0]] + rest
  }

  /** Removal keeps exactly the comments with another id. */
  lemma {:induction false} WithoutIdMembers(comments: seq<Comment>, id: string)
    ensures forall c :: c in WithoutId(comments, id) <==> c in comments && c.id != id
  {
    if comments != [] {
      WithoutIdMembers(comments[1..], id);
      assert comments == [comments[0]] + comments[1..];
    }
  }

  /** Removal keeps the order of what is left: it distributes over concatenation. */
  lemma {:induction false} WithoutIdAppend(a: seq<Comment>, b: seq<Comment>, id: string)
    ensures WithoutId(a + b, id) == WithoutId(a, id) + WithoutId(b, id)
  {
    if a != [] {
      WithoutIdAppend(a[1..], b, id);
      assert a + b == [a[0]] + (a[1..] + b);
      assert a == [a[0]] + a[1..];
      WithoutIdCons(a[0], a[1..] + b, id);
      WithoutIdCons(a[0], a[1..], id);
    } else {
      assert a + b == b;
    }
  }

  lemma {:induction false} WithoutIdCons(x: Comment, s: seq<Comment>, id: string)
    ensures WithoutId([x] + s, id) == (if x.id == id then [] else [x]) + WithoutId(s, id)
  {
    assert ([x] + s)[0] == x && ([x] + s)[1..] == s;
  }

  /** A list without the id is left as it is, so removing twice is removing once. */
  lemma {:induction false} WithoutIdAbsent(comments: seq<Comment>, id: string)
    requires forall c :: c in comments ==> c.id != id
    ensures WithoutId(comments, id) == comments
  {
    if comments != [] {
      WithoutIdAbsent(comments[1..], id);
    }
  }

  /**
   * `handleDelete`: signed out, the list is unchanged and the user is sent
   * to sign in; after a successful request every comment with that id is
   * gone and the rest keep their order.
   */
  function HandleDelete(comments: seq<Comment>, signedIn: bool, commentId: string, outcome: Outcome<bool>)
    : (r: (seq<Comment>, bool))
    ensures r.1 <==> !signedIn
    ensures !(signedIn && outcome.Success?) ==> r.0 == comments
    ensures signedIn && outcome.Success? ==> r.0 == WithoutId(comments, commentId)
    ensures signedIn && outcome.Success? ==> forall c :: c in r.0 <==> c in comments && c.id != commentId
  {
    WithoutIdMembers(comments, commentId);
    if signedIn && outcome.Success? then (WithoutId(comments, commentId), false) else (comments, !signedIn)
  }
}
