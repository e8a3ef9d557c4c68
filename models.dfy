/** The forum's records (Question, Response) and the read queries of the
    Question and Response models: lists newest first, the tag filter, the
    lookup by slug, the responses of a question, and the per-viewer vote
    annotations `user_upvoted` / `user_downvoted`.

    Tables are maps keyed by primary key. Keys are handed out in increasing
    order and a row's created_at is stamped at insertion, so ordering by
    created_at, newest first, is ordering by descending key; `below` is the
    next key to be handed out, above every key in use. */
module Models {
  import opened VoteTable
  import opened Toggle

  type QuestionId = nat
  type ResponseId = nat
  type TagId = nat

  datatype Question = Question(
    title: string,
    description: string,
    questioner: UserId,
    upvotes: int,
    downvotes: int,
    slug: string,
    tags: set<TagId>)
  {
    function Counts(): Counters {
      Counters(upvotes, downvotes)
    }
  }

  datatype Response = Response(
    content: string,
    respondent: UserId,
    question: QuestionId,
    upvotes: int,
    downvotes: int)
  {
    function Counts(): Counters {
      Counters(upvotes, downvotes)
    }
  }

  /** A question as the ask form builds it: counters at their default 0, the
      slug still blank until the first save. */
  function NewQuestion(questioner: UserId, title: string, description: string, tags: set<TagId>): Question {
    Question(title, description, questioner, 0, 0, "", tags)
  }

  /** A response as the answer form builds it, counters at their default 0. */
  function NewResponse(respondent: UserId, question: QuestionId, content: string): Response {
    Response(content, respondent, question, 0, 0)
  }

  datatype Viewer = Anonymous | Authenticated(user: UserId)

  datatype Flags = Flags(userUpvoted: nat, userDownvoted: nat)

  datatype QuestionView = QuestionView(id: QuestionId, question: Question, flags: Option<Flags>)

  datatype ResponseView = ResponseView(id: ResponseId, response: Response, flags: Option<Flags>)

  /** The annotation of target t for this viewer: absent for an anonymous
      viewer, otherwise the viewer's rows on t counted per sign. */
  function Annotate(rows: seq<VoteRow>, viewer: Viewer, t: TargetId): Option<Flags> {
    match viewer
    case Anonymous => None
    case Authenticated(u) => Some(Flags(CountVotes(rows, u, t, UPVOTE), CountVotes(rows, u, t, DOWNVOTE)))
  }

  /** Some question already carries this slug. */
  predicate SlugTaken(qs: map<QuestionId, Question>, slug: string) {
    exists id :: id in qs && qs[id].slug == slug
  }

  /** Tag filter: the question carries a tag whose name is exactly `tag`. */
  predicate HasTag(q: Question, tagNames: map<TagId, string>, tag: string) {
    exists id :: id in q.tags && id in tagNames && tagNames[id] == tag
  }

  predicate Selected(q: Question, tagNames: map<TagId, string>, tag: Option<string>) {
    tag.None? || HasTag(q, tagNames, tag.value)
  }

  /** The keys in `keep` below `below`, newest (largest) first. */
  function NewestFirst(keep: set<QuestionId>, below: nat): (ids: seq<QuestionId>)
    ensures forall k :: 0 <= k < |ids| ==> ids[k] in keep && ids[k] < below
    ensures forall k, l :: 0 <= k < l < |ids| ==> ids[k] > ids[l]
    ensures forall id :: id in keep && id < below ==> id in ids
    decreases below
  {
    if below == 0 then []
    else
      var rest := NewestFirst(keep, below - 1);
      if below - 1 in keep then [below - 1] + rest else rest
  }

  /** Keys below `below` of the responses to question `qid`, in key order. */
  function ResponsesOf(rs: map<ResponseId, Response>, qid: QuestionId, below: nat): (ids: seq<ResponseId>)
    ensures forall k :: 0 <= k < |ids| ==> ids[k] in rs && ids[k] < below && rs[ids[k]].question == qid
    ensures forall k, l :: 0 <= k < l < |ids| ==> ids[k] < ids[l]
    ensures forall id :: id in rs && id < below && rs[id].question == qid ==> id in ids
    decreases below
  {
    if below == 0 then []
    else
      var rest := ResponsesOf(rs, qid, below - 1);
      if below - 1 in rs && rs[below - 1].question == qid then rest + [below - 1] else rest
  }

  /** The newest question below `below` whose slug is `slug`. */
  function FindSlug(qs: map<QuestionId, Question>, slug: string, below: nat): (r: Option<QuestionId>)
    ensures r.Some? ==> r.value in qs && r.value < below && qs[r.value].slug == slug
    ensures r.None? ==> forall id :: id in qs && id < below ==> qs[id].slug != slug
    decreases below
  {
    if below == 0 then None
    else if below - 1 in qs && qs[below - 1].slug == slug then Some(below - 1)
    else FindSlug(qs, slug, below - 1)
  }

  function QuestionViews(qs: map<QuestionId, Question>, votes: seq<VoteRow>, ids: seq<QuestionId>, viewer: Viewer)
      : (r: seq<QuestionView>)
    requires forall k :: 0 <= k < |ids| ==> ids[k] in qs
    ensures |r| == |ids|
    ensures forall k :: 0 <= k < |ids| ==> r[k] == QuestionView(ids[k], qs[ids[k]], Annotate(votes, viewer, ids[k]))
  {
    seq(|ids|, k requires 0 <= k < |ids| => QuestionView(ids[k], qs[ids[k]], Annotate(votes, viewer, ids[k])))
  }

  /** get_questions_list (tag == None) and get_questions_by_tag (tag == Some(name)):
      every question below `below` that passes the tag filter, each exactly
      once, newest first, each annotated for the viewer. */
  function GetQuestions(qs: map<QuestionId, Question>, votes: seq<VoteRow>, tagNames: map<TagId, string>,
                        tag: Option<string>, below: nat, viewer: Viewer): (r: seq<QuestionView>)
    ensures forall k :: 0 <= k < |r| ==>
      && r[k].id in qs && r[k].question == qs[r[k].id]
      && Selected(r[k].question, tagNames, tag)
      && r[k].flags == Annotate(votes, viewer, r[k].id)
    ensures forall k, l :: 0 <= k < l < |r| ==> r[k].id > r[l].id
    ensures forall id :: id in qs && id < below && Selected(qs[id], tagNames, tag) ==>
      exists k :: 0 <= k < |r| && r[k].id == id
  {
    var keep := set id | id in qs && Selected(qs[id], tagNames, tag);
    var ids := NewestFirst(keep, below);
    var r := QuestionViews(qs, votes, ids, viewer);
    assert forall id :: id in qs && id < below && Selected(qs[id], tagNames, tag) ==>
        exists k :: 0 <= k < |r| && r[k].id == id by {
      forall id | id in qs && id < below && Selected(qs[id], tagNames, tag)
        ensures exists k :: 0 <= k < |r| && r[k].id == id
      {
        assert id in keep;
        var k :| 0 <= k < |ids| && ids[k] == id;
        assert r[k].id == id;
      }
    }
    r
  }

  /** get_question_info: the question whose slug is `slug`, annotated for the
      viewer, or None when no question has that slug. */
  function GetQuestionInfo(qs: map<QuestionId, Question>, votes: seq<VoteRow>, below: nat,
                           viewer: Viewer, slug: string): (r: Option<QuestionView>)
    ensures r.Some? ==>
      && r.value.id in qs && r.value.question == qs[r.value.id] && r.value.question.slug == slug
      && r.value.flags == Annotate(votes, viewer, r.value.id)
    ensures r.None? <==> forall id :: id in qs && id < below ==> qs[id].slug != slug
  {
    match FindSlug(qs, slug, below)
    case None => None
    case Some(id) => Some(QuestionView(id, qs[id], Annotate(votes, viewer, id)))
  }

  /** get_response_list_by_question: every response below `below` to question
      `qid`, each exactly once, each annotated for the viewer. The query sets
      no order; the list is built in key order, one admissible order. */
  function GetResponseList(rs: map<ResponseId, Response>, votes: seq<VoteRow>, below: nat,
                           qid: QuestionId, viewer: Viewer): (r: seq<ResponseView>)
    ensures forall k :: 0 <= k < |r| ==>
      && r[k].id in rs && r[k].response == rs[r[k].id] && r[k].response.question == qid
      && r[k].flags == Annotate(votes, viewer, r[k].id)
    ensures forall k, l :: 0 <= k < l < |r| ==> r[k].id != r[l].id
    ensures forall id :: id in rs && id < below && rs[id].question == qid ==>
      exists k :: 0 <= k < |r| && r[k].id == id
  {
    var ids := ResponsesOf(rs, qid, below);
    var r := seq(|ids|, k requires 0 <= k < |ids| => ResponseView(ids[k], rs[ids[k]], Annotate(votes, viewer, ids[k])));
    assert forall id :: id in ids ==> exists k :: 0 <= k < |r| && r[k].id == id by {
      forall id | id in ids ensures exists k :: 0 <= k < |r| && r[k].id == id {
        var k :| 0 <= k < |ids| && ids[k] == id;
        assert r[k].id == id;
      }
    }
    r
  }

  // ---------------------------------------------------------------------------
  // Lemmas

  /** For a signed-in viewer each flag is 1 exactly when the viewer holds that
      vote, so the flags are 0 or 1 and never both 1; an anonymous viewer gets
      no flags at all. */
  lemma AnnotationMeaning(rows: seq<VoteRow>, viewer: Viewer, t: TargetId)
    requires Unique(rows)
    ensures Annotate(rows, viewer, t).None? <==> viewer.Anonymous?
    ensures viewer.Authenticated? ==>
      var f := Annotate(rows, viewer, t).value;
      && (f.userUpvoted == 1 <==> VoteOf(rows, viewer.user, t) == Some(UPVOTE))
      && (f.userDownvoted == 1 <==> VoteOf(rows, viewer.user, t) == Some(DOWNVOTE))
      && f.userUpvoted <= 1 && f.userDownvoted <= 1
      && f.userUpvoted + f.userDownvoted <= 1
  {
    if viewer.Authenticated? {
      CountVotesIsContribution(rows, viewer.user, t, UPVOTE);
      CountVotesIsContribution(rows, viewer.user, t, DOWNVOTE);
    }
  }
}
