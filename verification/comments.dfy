/** Comments on events, the per-user reaction records and the bodies that create, edit and
    react to a comment. */
module CommentModel {
  import opened Wrappers
  import opened Text

  /** Comment moderation state. Only PENDING and PUBLISHED enter any rule; CANCELED stands for
      the remaining values, which the rules never distinguish. */
  datatype StateComment = PENDING | PUBLISHED | CANCELED

  /** A stored comment; the event and the author are kept as ids. */
  datatype Comment = Comment(id: int, event: int, author: int, created: int, text: string,
                             state: StateComment, likes: int, dislikes: int)

  /** One user's reaction record on one comment. A flag is `None` until the user sets it. */
  datatype CommentLike = CommentLike(comment: int, user: int, likes: Option<bool>, dislike: Option<bool>)

  datatype NewCommentDto = NewCommentDto(event: int, text: string)

  datatype UpdateCommentDto = UpdateCommentDto(text: Option<string>)

  /** Response body; the nested event and author views are projected to their ids. */
  datatype CommentDto = CommentDto(id: int, event: int, author: int, created: int, text: string,
                                   state: StateComment, likes: int, dislikes: int)

  datatype LikeDto = LikeDto(like: Option<bool>, dislike: Option<bool>)

  /** `isCorrectSetLikeDislike`: a like and a dislike cannot both be set; `null` is "not set". */
  predicate IsCorrectSetLikeDislike(d: LikeDto) {
    !(d.like.Some? && d.like.value && d.dislike.Some? && d.dislike.value)
  }

  /** Of the nine combinations of null, false and true, only like = dislike = true is refused. */
  lemma OnlyDoubleReactionRefused(d: LikeDto)
    ensures !IsCorrectSetLikeDislike(d) <==> d == LikeDto(Some(true), Some(true))
    ensures IsCorrectSetLikeDislike(LikeDto(Some(true), None)) && IsCorrectSetLikeDislike(LikeDto(Some(true), Some(false)))
    ensures IsCorrectSetLikeDislike(LikeDto(None, Some(true))) && IsCorrectSetLikeDislike(LikeDto(Some(false), Some(true)))
    ensures IsCorrectSetLikeDislike(LikeDto(None, None)) && IsCorrectSetLikeDislike(LikeDto(Some(false), Some(false)))
  {
  }

  /** `hasText` of the update body. */
  function HasNewText(u: UpdateCommentDto): (b: bool)
    ensures b <==> u.text.Some? && !IsBlank(u.text.value)
  {
    HasText(u.text)
  }
}

/** CommentMapper: entity from the bodies, and the response body from the entity. */
module CommentMapper {
  import opened Wrappers
  import opened Text
  import opened CommentModel

  /** `toCommentFromNewtDto`: a fresh PENDING comment without reactions. The id is the
      placeholder 0 until the table assigns one. */
  function ToCommentFromNewDto(d: NewCommentDto, author: int, event: int, now: int): (c: Comment)
    ensures c.text == d.text && c.author == author && c.event == event && c.created == now
    ensures c.state == PENDING && c.likes == 0 && c.dislikes == 0
  {
    Comment(0, event, author, now, d.text, PENDING, 0, 0)
  }

  /** `toCommentFromUpdate`: a non-blank text replaces the old one; nothing else moves. */
  function ToCommentFromUpdate(u: UpdateCommentDto, c: Comment): (r: Comment)
    ensures r.text == (if HasNewText(u) then u.text.value else c.text)
    ensures r.(text := c.text) == c
  {
    if HasNewText(u) then c.(text := u.text.value) else c
  }

  /** An update without usable text returns the comment unchanged, and applying the same
      update twice is the same as once. */
  lemma UpdateIdempotent(u: UpdateCommentDto, c: Comment)
    ensures !HasNewText(u) ==> ToCommentFromUpdate(u, c) == c
    ensures ToCommentFromUpdate(u, ToCommentFromUpdate(u, c)) == ToCommentFromUpdate(u, c)
  {
  }

  /** `toCommentDto`. */
  function ToCommentDto(c: Comment): (d: CommentDto)
    ensures d.id == c.id && d.created == c.created && d.text == c.text && d.state == c.state
    ensures d.likes == c.likes && d.dislikes == c.dislikes
  {
    CommentDto(c.id, c.event, c.author, c.created, c.text, c.state, c.likes, c.dislikes)
  }

  /** The response body loses nothing: distinct comments give distinct bodies. */
  lemma ToCommentDtoInjective(c1: Comment, c2: Comment)
    ensures ToCommentDto(c1) == ToCommentDto(c2) <==> c1 == c2
  {
  }
}

/** CommentServiceImpl: creation, edits, moderation and reactions. */
module CommentService {
  import opened Wrappers
  import opened Text
  import opened CommentModel
  import opened CommentMapper

  /** The tables the service touches. `nextId` is the comment table's identity counter. */
  datatype CommentStore = CommentStore(users: set<int>, events: set<int>, comments: map<int, Comment>,
                                       reactions: seq<CommentLike>, nextId: int)

  // ---------------------------------------------------------------- counting

  function LikeCount(rs: seq<CommentLike>, commentId: int): (n: nat)
    ensures n <= |rs|
  {
    if rs == [] then 0
    else (if rs[0].comment == commentId && rs[0].likes == Some(true) then 1 else 0) + LikeCount(rs[1..], commentId)
  }

  function DislikeCount(rs: seq<CommentLike>, commentId: int): (n: nat)
    ensures n <= |rs|
  {
    if rs == [] then 0
    else (if rs[0].comment == commentId && rs[0].dislike == Some(true) then 1 else 0) + DislikeCount(rs[1..], commentId)
  }

  lemma {:induction false} CountsAppend(rs: seq<CommentLike>, r: CommentLike, commentId: int)
    ensures LikeCount(rs + [r], commentId) == LikeCount(rs, commentId) + (if r.comment == commentId && r.likes == Some(true) then 1 else 0)
    ensures DislikeCount(rs + [r], commentId) == DislikeCount(rs, commentId) + (if r.comment == commentId && r.dislike == Some(true) then 1 else 0)
  {
    if rs == [] {
      assert rs + [r] == [r];
    } else {
      assert (rs + [r])[1..] == rs[1..] + [r];
      CountsAppend(rs[1..], r, commentId);
    }
  }

  lemma {:induction false} CountsOfAbsent(rs: seq<CommentLike>, commentId: int)
    requires forall i | 0 <= i < |rs| :: rs[i].comment != commentId
    ensures LikeCount(rs, commentId) == 0 && DislikeCount(rs, commentId) == 0
  {
    if rs != [] {
      CountsOfAbsent(rs[1..], commentId);
    }
  }

  // ---------------------------------------------------------------- invariants

  /** No reaction flag is ever stored as `false`: a flag is either unset or true. */
  predicate NoFalseFlags(rs: seq<CommentLike>) {
    forall i | 0 <= i < |rs| :: rs[i].likes != Some(false) && rs[i].dislike != Some(false)
  }

  /** At most one reaction record per (comment, user) pair. */
  predicate UniqueReactions(rs: seq<CommentLike>) {
    forall i, j | 0 <= i < j < |rs| :: !(rs[i].comment == rs[j].comment && rs[i].user == rs[j].user)
  }

  /** Every comment is filed under its id below the counter, every reaction names a stored
      comment, and each comment's counters are the numbers of its set flags. */
  predicate Valid(s: CommentStore) {
    && (forall id | id in s.comments :: s.comments[id].id == id && id < s.nextId)
    && (forall i | 0 <= i < |s.reactions| :: s.reactions[i].comment in s.comments)
    && NoFalseFlags(s.reactions)
    && UniqueReactions(s.reactions)
    && (forall id | id in s.comments ::
          s.comments[id].likes == LikeCount(s.reactions, id) && s.comments[id].dislikes == DislikeCount(s.reactions, id))
  }

  // ---------------------------------------------------------------- operations

  /** `addComment`. */
  function AddComment(s: CommentStore, userId: int, d: NewCommentDto, now: int): (r: Result<(CommentStore, CommentDto)>)
    ensures r.Ok? <==> userId in s.users && d.event in s.events
    ensures r.Err? ==> r.error == NotFound
    ensures r.Ok? ==> s.nextId in r.value.0.comments
    ensures r.Ok? ==>
      var (s', c) := r.value;
      && c.id == s.nextId && c.state == PENDING && c.likes == 0 && c.dislikes == 0
      && c.author == userId && c.event == d.event && c.text == d.text
      && s'.comments == s.comments[s.nextId := s'.comments[s.nextId]]
      && ToCommentDto(s'.comments[s.nextId]) == c
      && s'.reactions == s.reactions
  {
    if userId !in s.users then Err(NotFound)
    else if d.event !in s.events then Err(NotFound)
    else
      var comment := ToCommentFromNewDto(d, userId, d.event, now).(id := s.nextId);
      Ok((s.(comments := s.comments[s.nextId := comment], nextId := s.nextId + 1), ToCommentDto(comment)))
  }

  lemma AddCommentKeepsValid(s: CommentStore, userId: int, d: NewCommentDto, now: int)
    requires Valid(s) && AddComment(s, userId, d, now).Ok?
    ensures Valid(AddComment(s, userId, d, now).value.0)
  {
    CountsOfAbsent(s.reactions, s.nextId);
  }

  /** `updateComment`. Only the author may edit. The stored state is read after the merge,
      which never changes it; on a PUBLISHED comment the edit note `suffix` (a line with the
      edit time) is appended to the text, whether the text changed or not. */
  function UpdateComment(s: CommentStore, userId: int, commentId: int, u: UpdateCommentDto, suffix: string)
    : (r: Result<(CommentStore, CommentDto)>)
    ensures r.Ok? <==> userId in s.users && commentId in s.comments && s.comments[commentId].author == userId
    ensures userId in s.users && commentId in s.comments && s.comments[commentId].author != userId ==> r == Err(DataConflict)
    ensures r.Ok? ==> commentId in s.comments && commentId in r.value.0.comments
    ensures r.Ok? ==>
      var prev := s.comments[commentId];
      var c := r.value.0.comments[commentId];
      && r.value.0 == s.(comments := s.comments[commentId := c])
      && c.(text := prev.text) == prev
      && c.text == (if HasNewText(u) then u.text.value else prev.text) + (if prev.state == PUBLISHED then suffix else "")
      && r.value.1 == ToCommentDto(c)
  {
    if userId !in s.users then Err(NotFound)
    else if commentId !in s.comments then Err(NotFound)
    else
      var prev := s.comments[commentId];
      if userId != prev.author then Err(DataConflict)
      else
        var c := ToCommentFromUpdate(u, prev);
        var c := if c.state == PUBLISHED then c.(text := c.text + suffix) else c;
        Ok((s.(comments := s.comments[commentId := c]), ToCommentDto(c)))
  }

  /** Editing a published comment without new text still appends the note. */
  lemma PublishedEditAlwaysMarked(s: CommentStore, userId: int, commentId: int, suffix: string)
    requires UpdateComment(s, userId, commentId, UpdateCommentDto(None), suffix).Ok?
    requires s.comments[commentId].state == PUBLISHED
    ensures UpdateComment(s, userId, commentId, UpdateCommentDto(None), suffix).value.1.text
         == s.comments[commentId].text + suffix
  {
  }

  /** `changeStateComment`: the author may set any state. The caller is not looked up. */
  function ChangeStateComment(s: CommentStore, userId: int, commentId: int, state: StateComment)
    : (r: Result<(CommentStore, CommentDto)>)
    ensures r.Ok? <==> commentId in s.comments && s.comments[commentId].author == userId
    ensures commentId in s.comments && s.comments[commentId].author != userId ==> r == Err(DataConflict)
    ensures r.Ok? ==> r.value.0 == s.(comments := s.comments[commentId := s.comments[commentId].(state := state)])
  {
    if commentId !in s.comments then Err(NotFound)
    else if s.comments[commentId].author != userId then Err(DataConflict)
    else AdminChangeStateComment(s, commentId, state)
  }

  /** `adminChangeStateComment`: any state on any existing comment. */
  function AdminChangeStateComment(s: CommentStore, commentId: int, state: StateComment)
    : (r: Result<(CommentStore, CommentDto)>)
    ensures r.Ok? <==> commentId in s.comments
    ensures r.Err? ==> r.error == NotFound
    ensures r.Ok? ==> r.value.0 == s.(comments := s.comments[commentId := s.comments[commentId].(state := state)])
    ensures r.Ok? ==> r.value.1.state == state && r.value.1.text == s.comments[commentId].text
  {
    if commentId !in s.comments then Err(NotFound)
    else
      var c := s.comments[commentId].(state := state);
      Ok((s.(comments := s.comments[commentId := c]), ToCommentDto(c)))
  }

  /** The author's change and the admin's change agree whenever the author's is allowed. */
  lemma AuthorChangeIsAdminChange(s: CommentStore, userId: int, commentId: int, state: StateComment)
    requires ChangeStateComment(s, userId, commentId, state).Ok?
    ensures ChangeStateComment(s, userId, commentId, state) == AdminChangeStateComment(s, commentId, state)
  {
  }

  /** `findByComment_IdAndUser_Id`: the position of the user's record on the comment. */
  function FindReaction(rs: seq<CommentLike>, commentId: int, userId: int): (r: Option<nat>)
    ensures r.Some? ==> r.value < |rs| && rs[r.value].comment == commentId && rs[r.value].user == userId
    ensures r.None? ==> forall i | 0 <= i < |rs| :: !(rs[i].comment == commentId && rs[i].user == userId)
  {
    if rs == [] then None
    else if rs[0].comment == commentId && rs[0].user == userId then Some(0)
    else
      var r := FindReaction(rs[1..], commentId, userId);
      if r.Some? then Some(r.value + 1) else None
  }

  /** `likeComment`. A first reaction creates a record whose flags are set to true for the
      reactions asked for (left unset otherwise) and counts them. A repeated reaction counts a
      flag only when the stored one is `false`. */
  function LikeComment(s: CommentStore, userId: int, commentId: int, d: LikeDto): (r: Result<(CommentStore, CommentDto)>)
    ensures r.Ok? <==> userId in s.users && commentId in s.comments
    ensures r.Err? ==> r.error == NotFound
    ensures r.Ok? ==> commentId in s.comments && commentId in r.value.0.comments
    ensures r.Ok? ==>
      var prev := s.comments[commentId];
      var c := r.value.0.comments[commentId];
      && r.value.0.comments == s.comments[commentId := c]
      && c.(likes := prev.likes, dislikes := prev.dislikes) == prev
      && prev.likes <= c.likes <= prev.likes + 1 && prev.dislikes <= c.dislikes <= prev.dislikes + 1
      && r.value.1 == ToCommentDto(c)
    ensures r.Ok? && FindReaction(s.reactions, commentId, userId).None? ==>
      var prev := s.comments[commentId];
      var c := r.value.0.comments[commentId];
      && c.likes == prev.likes + (if d.like == Some(true) then 1 else 0)
      && c.dislikes == prev.dislikes + (if d.dislike == Some(true) then 1 else 0)
      && r.value.0.reactions == s.reactions + [CommentLike(commentId, userId,
            if d.like == Some(true) then Some(true) else None,
            if d.dislike == Some(true) then Some(true) else None)]
  {
    if userId !in s.users then Err(NotFound)
    else if commentId !in s.comments then Err(NotFound)
    else
      var comment := s.comments[commentId];
      var like := comment.likes;
      var dislike := comment.dislikes;
      var found := FindReaction(s.reactions, commentId, userId);
      if found.None? then
        var likeSet := d.like.Some? && d.like.value;
        var dislikeSet := d.dislike.Some? && d.dislike.value;
        var record := CommentLike(commentId, userId, if likeSet then Some(true) else None,
                                  if dislikeSet then Some(true) else None);
        var comment := comment.(likes := if likeSet then like + 1 else like,
                                dislikes := if dislikeSet then dislike + 1 else dislike);
        Ok((s.(comments := s.comments[commentId := comment], reactions := s.reactions + [record]),
            ToCommentDto(comment)))
      else
        var record := s.reactions[found.value];
        var likeNow := d.like.Some? && d.like.value && record.likes.Some? && !record.likes.value;
        var dislikeNow := d.dislike.Some? && d.dislike.value && record.dislike.Some? && !record.dislike.value;
        var record := record.(likes := if likeNow then Some(true) else record.likes,
                              dislike := if dislikeNow then Some(true) else record.dislike);
        var comment := comment.(likes := if likeNow then like + 1 else like,
                                dislikes := if dislikeNow then dislike + 1 else dislike);
        Ok((s.(comments := s.comments[commentId := comment], reactions := s.reactions[found.value := record]),
            ToCommentDto(comment)))
  }

  /** No reaction ever clears a flag: a flag that was true stays true. */
  lemma LikeNeverClearsFlag(s: CommentStore, userId: int, commentId: int, d: LikeDto, i: int)
    requires LikeComment(s, userId, commentId, d).Ok?
    requires 0 <= i < |s.reactions|
    ensures i < |LikeComment(s, userId, commentId, d).value.0.reactions|
    ensures s.reactions[i].likes == Some(true) ==> LikeComment(s, userId, commentId, d).value.0.reactions[i].likes == Some(true)
    ensures s.reactions[i].dislike == Some(true) ==> LikeComment(s, userId, commentId, d).value.0.reactions[i].dislike == Some(true)
  {
  }

  /** Since no flag is ever stored as false, a second reaction by the same user never moves
      a counter or a record: the store comes back unchanged. */
  lemma RepeatReactionIsNoOp(s: CommentStore, userId: int, commentId: int, d: LikeDto)
    requires NoFalseFlags(s.reactions)
    requires LikeComment(s, userId, commentId, d).Ok?
    requires FindReaction(s.reactions, commentId, userId).Some?
    ensures LikeComment(s, userId, commentId, d).value.0 == s
  {
    var k := FindReaction(s.reactions, commentId, userId).value;
    assert s.reactions[k := s.reactions[k]] == s.reactions;
    assert s.comments[commentId := s.comments[commentId]] == s.comments;
  }

  /** Reactions keep the store invariants: counters equal the numbers of set flags. */
  lemma LikeCommentKeepsValid(s: CommentStore, userId: int, commentId: int, d: LikeDto)
    requires Valid(s) && LikeComment(s, userId, commentId, d).Ok?
    ensures Valid(LikeComment(s, userId, commentId, d).value.0)
  {
    var s' := LikeComment(s, userId, commentId, d).value.0;
    if FindReaction(s.reactions, commentId, userId).Some? {
      RepeatReactionIsNoOp(s, userId, commentId, d);
    } else {
      var record := s'.reactions[|s.reactions|];
      assert s'.reactions == s.reactions + [record];
      forall id | id in s'.comments
        ensures s'.comments[id].likes == LikeCount(s'.reactions, id)
        ensures s'.comments[id].dislikes == DislikeCount(s'.reactions, id)
      {
        CountsAppend(s.reactions, record, id);
      }
      forall i, j | 0 <= i < j < |s'.reactions|
        ensures !(s'.reactions[i].comment == s'.reactions[j].comment && s'.reactions[i].user == s'.reactions[j].user)
      {
        if j == |s.reactions| {
          assert s'.reactions[i] == s.reactions[i];
        }
      }
    }
  }
}
