/** The forum's request handlers over the database. Each handler is one
    sequential step on the tables; the signed-in user, the form outcome, the
    request method and the `next` parameter are inputs, and the HTTP reply is
    the `Reply` a handler returns. */
module Views {
  import opened VoteTable
  import opened Toggle
  import opened Slugs
  import opened Models

  datatype Reply =
    | Redirect(location: string)
    | Rendered      // a page is rendered; nothing is written
    | NotFound      // 404 from get_object_or_404
    | Forbidden     // 403 for a question the user does not own
    | BadRequest    // 400 for a response the user does not own
    | ServerError   // the request fails with an unhandled error

  const HOME: string := "/"

  /** What the question page shows. */
  datatype Detail = Detail(question: QuestionView, responses: seq<ResponseView>)

  /** The path of a question's detail page. */
  function DetailUrl(slug: string): string {
    "/question/" + slug + "/"
  }

  /** The `next` parameter, "/" when absent. */
  function NextOr(next: Option<string>): string {
    if next.Some? then next.value else HOME
  }

  /** Where delete_question sends the user: to `next`, unless that is the page
      of the question just deleted, in which case to the home page. */
  function AfterDelete(next: Option<string>, slug: string): (to: string)
    ensures to != DetailUrl(slug)
    ensures to == NextOr(next) || to == HOME
    ensures NextOr(next) != DetailUrl(slug) ==> to == NextOr(next)
  {
    if NextOr(next) == DetailUrl(slug) then HOME else NextOr(next)
  }

  class Forum {
    /** The web framework's slugify routine. */
    const slugify: string -> string
    /** The Tag table, id to name; no handler here writes it. */
    const tagNames: map<TagId, string>

    var questions: map<QuestionId, Question>
    var responses: map<ResponseId, Response>
    var questionVotes: seq<VoteRow>
    var responseVotes: seq<VoteRow>
    /** The next primary keys to hand out. */
    var nextQuestionId: nat
    var nextResponseId: nat

    /** The database invariant holds of this forum's tables. */
    ghost predicate Valid()
      reads this
    {
      Database(questions, responses, questionVotes, responseVotes, nextQuestionId, nextResponseId)
    }

    constructor (slugify: string -> string, tagNames: map<TagId, string>)
      ensures Valid()
      ensures this.slugify == slugify && this.tagNames == tagNames
      ensures questions == map[] && responses == map[] && questionVotes == [] && responseVotes == []
    {
      this.slugify := slugify;
      this.tagNames := tagNames;
      questions, responses := map[], map[];
      questionVotes, responseVotes := [], [];
      nextQuestionId, nextResponseId := 0, 0;
    }

    /** The question with this slug, as get_object_or_404(Question, slug=slug) finds it. */
    function QuestionBySlug(slug: string): Option<QuestionId>
      reads this
    {
      FindSlug(questions, slug, nextQuestionId)
    }

    /** The question list of the home page (tag == None) and of a tag's page
        (tag == Some(name)) over this forum's tables: with the invariant in
        place, every question that passes the tag filter is listed, and only
        such questions are. */
    function QuestionList(tag: Option<string>, viewer: Viewer): (r: seq<QuestionView>)
      reads this
      ensures forall k :: 0 <= k < |r| ==>
        r[k].id in questions && Selected(questions[r[k].id], tagNames, tag)
      ensures Valid() ==>
        forall id :: id in questions && Selected(questions[id], tagNames, tag) ==>
          exists k :: 0 <= k < |r| && r[k].id == id
    {
      GetQuestions(questions, questionVotes, tagNames, tag, nextQuestionId, viewer)
    }

    /** question_detail: the question with this slug and all its responses,
        each annotated for the viewer, or None (a 404) when no question has
        the slug. */
    function QuestionDetail(slug: string, viewer: Viewer): (r: Option<Detail>)
      reads this
      ensures Valid() ==> (r.None? <==> !SlugTaken(questions, slug))
      ensures r.Some? ==>
        && r.value.question.id in questions && r.value.question.question.slug == slug
        && (forall k :: 0 <= k < |r.value.responses| ==>
              r.value.responses[k].id in responses
              && r.value.responses[k].response.question == r.value.question.id)
      ensures r.Some? && Valid() ==>
        forall rid :: rid in responses && responses[rid].question == r.value.question.id ==>
          exists k :: 0 <= k < |r.value.responses| && r.value.responses[k].id == rid
    {
      match GetQuestionInfo(questions, questionVotes, nextQuestionId, viewer, slug)
      case None => None
      case Some(q) => Some(Detail(q, GetResponseList(responses, responseVotes, nextResponseId, q.id, viewer)))
    }

    /** Question.save: on the first save (no primary key yet) the slug is drawn
        as slugify(title) + "-" + n for a random n in [SUFFIX_MIN, SUFFIX_MAX]
        and the row is inserted under a fresh key, unless the slug is taken, in
        which case the unique column rejects the insert. A later save writes
        the instance as it is, slug included. */
    method SaveQuestion(pk: Option<QuestionId>, q: Question) returns (saved: Option<QuestionId>)
      modifies this
      ensures responses == old(responses) && responseVotes == old(responseVotes)
      ensures questionVotes == old(questionVotes) && nextResponseId == old(nextResponseId)
      ensures pk.Some? ==>
        saved == pk && questions == old(questions)[pk.value := q] && nextQuestionId == old(nextQuestionId)
      ensures pk.None? && saved.None? ==>
        && unchanged(this)
        && (exists n :: SUFFIX_MIN <= n <= SUFFIX_MAX && SlugTaken(old(questions), NewSlug(slugify, q.title, n)))
      ensures pk.None? && saved.Some? ==>
        && saved == Some(old(nextQuestionId)) && nextQuestionId == old(nextQuestionId) + 1
        && (exists n :: && SUFFIX_MIN <= n <= SUFFIX_MAX
                        && !SlugTaken(old(questions), NewSlug(slugify, q.title, n))
                        && questions == old(questions)[old(nextQuestionId) := q.(slug := NewSlug(slugify, q.title, n))])
    {
      if pk.None? {
        var n :| SUFFIX_MIN <= n <= SUFFIX_MAX;
        var slug := NewSlug(slugify, q.title, n);
        if SlugTaken(questions, slug) {
          saved := None;
        } else {
          saved := Some(nextQuestionId);
          questions := questions[nextQuestionId := q.(slug := slug)];
          nextQuestionId := nextQuestionId + 1;
        }
      } else {
        saved := pk;
        questions := questions[pk.value := q];
      }
    }

    /** ask_question: a valid submitted form creates the user's question with
        zero counters and a new slug, and redirects home. */
    method AskQuestion(user: UserId, formValid: bool, title: string, description: string, tags: set<TagId>)
        returns (r: Reply)
      requires Valid()
      modifies this
      ensures Valid()
      ensures !formValid ==> r == Rendered
      ensures formValid ==> r == Redirect(HOME) || r == ServerError
      ensures r == ServerError ==>
        exists n :: SUFFIX_MIN <= n <= SUFFIX_MAX && SlugTaken(old(questions), NewSlug(slugify, title, n))
      ensures !r.Redirect? ==> unchanged(this)
      ensures r.Redirect? ==> nextQuestionId == old(nextQuestionId) + 1 && nextResponseId == old(nextResponseId)
      ensures r.Redirect? ==>
        var id := old(nextQuestionId);
        && id !in old(questions) && id in questions
        && questions == old(questions)[id := questions[id]]
        && questions[id].questioner == user && questions[id].title == title
        && questions[id].description == description && questions[id].tags == tags
        && questions[id].upvotes == 0 && questions[id].downvotes == 0
        && !SlugTaken(old(questions), questions[id].slug)
        && (exists n :: SUFFIX_MIN <= n <= SUFFIX_MAX && questions[id].slug == NewSlug(slugify, title, n))
        && VoteOf(questionVotes, user, id) == None
        && responses == old(responses) && questionVotes == old(questionVotes) && responseVotes == old(responseVotes)
    {
      if !formValid {
        return Rendered;
      }
      var saved := SaveQuestion(None, NewQuestion(user, title, description, tags));
      if saved.None? {
        return ServerError;
      }
      r := Redirect(HOME);
      var id := saved.value;
      forall x | x in questionVotes ensures x.target != id {
      }
      forall v: VoteValue ensures Tally(questionVotes, id, v) == 0 {
        if Tally(questionVotes, id, v) != 0 {
          NoTallyWithoutRow(questionVotes, id, v);
        }
      }
    }

    /** post_answer: the question must exist; a valid form adds the user's
        response with zero counters; either way the reply goes back to the
        question's page. */
    method PostAnswer(user: UserId, questionId: QuestionId, formValid: bool, content: string) returns (r: Reply)
      requires Valid()
      modifies this
      ensures Valid()
      ensures questionId !in old(questions) ==> r == ServerError && unchanged(this)
      ensures questionId in old(questions) ==> r == Redirect(DetailUrl(old(questions[questionId]).slug))
      ensures !formValid ==> unchanged(this)
      ensures questionId in old(questions) && formValid ==>
        && responses == old(responses)[old(nextResponseId) := NewResponse(user, questionId, content)]
        && old(nextResponseId) !in old(responses)
        && nextResponseId == old(nextResponseId) + 1
        && questions == old(questions) && questionVotes == old(questionVotes) && responseVotes == old(responseVotes)
      ensures nextQuestionId == old(nextQuestionId)
    {
      if questionId !in questions {
        return ServerError;
      }
      var question := questions[questionId];
      if formValid {
        var id := nextResponseId;
        forall x | x in responseVotes ensures x.target != id {
        }
        forall v: VoteValue ensures Tally(responseVotes, id, v) == 0 {
          if Tally(responseVotes, id, v) != 0 {
            NoTallyWithoutRow(responseVotes, id, v);
          }
        }
        responses := responses[id := NewResponse(user, questionId, content)];
        nextResponseId := nextResponseId + 1;
      }
      r := Redirect(DetailUrl(question.slug));
    }

    /** The state after one cast of `dir` by `user` on question `id`: the
        question table and the question's counters are those of the toggle,
        and nothing else moved. */
    twostate predicate QuestionVoteApplied(user: UserId, id: QuestionId, dir: VoteValue)
      reads this
    {
      && id in old(questions)
      && var b := Cast(old(questionVotes), old(questions[id]).Counts(), user, id, dir);
      && questionVotes == b.rows
      && questions == old(questions)[id := old(questions[id]).(upvotes := b.counters.upvotes,
                                                                downvotes := b.counters.downvotes)]
      && responses == old(responses) && responseVotes == old(responseVotes)
      && nextQuestionId == old(nextQuestionId) && nextResponseId == old(nextResponseId)
    }

    /** The same for a cast on response `id`. */
    twostate predicate ResponseVoteApplied(user: UserId, id: ResponseId, dir: VoteValue)
      reads this
    {
      && id in old(responses)
      && var b := Cast(old(responseVotes), old(responses[id]).Counts(), user, id, dir);
      && responseVotes == b.rows
      && responses == old(responses)[id := old(responses[id]).(upvotes := b.counters.upvotes,
                                                                downvotes := b.counters.downvotes)]
      && questions == old(questions) && questionVotes == old(questionVotes)
      && nextQuestionId == old(nextQuestionId) && nextResponseId == old(nextResponseId)
    }

    /** The body of upvote_question and downvote_question: find the question
        or fail with 404, toggle the user's vote, save the question's counters.
        The slug is untouched, and afterwards the user's vote on the question
        is the next state of the three-state machine. */
    method VoteOnQuestion(user: UserId, id: QuestionId, dir: VoteValue) returns (found: bool)
      requires Valid()
      modifies this
      ensures Valid()
      ensures found == (id in old(questions))
      ensures !found ==> unchanged(this)
      ensures found ==> QuestionVoteApplied(user, id, dir)
      ensures found ==> questions[id].slug == old(questions[id]).slug
      ensures found ==> VoteOf(questionVotes, user, id) == Next(VoteOf(old(questionVotes), user, id), dir)
    {
      if id !in questions {
        return false;
      }
      var question := questions[id];
      QuestionVoteKeeps(questions, responses, questionVotes, responseVotes, nextQuestionId, nextResponseId,
                        user, id, dir);
      CastVoteState(questionVotes, question.Counts(), user, id, dir);
      var rows, c := ApplyVote(questionVotes, question.Counts(), user, id, dir);
      questionVotes := rows;
      var _ := SaveQuestion(Some(id), question.(upvotes := c.upvotes, downvotes := c.downvotes));
      found := true;
    }

    /** The same body for upvote_response and downvote_response. */
    method VoteOnResponse(user: UserId, id: ResponseId, dir: VoteValue) returns (found: bool)
      requires Valid()
      modifies this
      ensures Valid()
      ensures found == (id in old(responses))
      ensures !found ==> unchanged(this)
      ensures found ==> ResponseVoteApplied(user, id, dir)
      ensures found ==> VoteOf(responseVotes, user, id) == Next(VoteOf(old(responseVotes), user, id), dir)
    {
      if id !in responses {
        return false;
      }
      var response := responses[id];
      ResponseVoteKeeps(questions, responses, questionVotes, responseVotes, nextQuestionId, nextResponseId,
                        user, id, dir);
      CastVoteState(responseVotes, response.Counts(), user, id, dir);
      var rows, c := ApplyVote(responseVotes, response.Counts(), user, id, dir);
      responseVotes := rows;
      responses := responses[id := response.(upvotes := c.upvotes, downvotes := c.downvotes)];
      found := true;
    }

    /** upvote_question */
    method UpvoteQuestion(user: UserId, questionId: QuestionId, next: Option<string>) returns (r: Reply)
      requires Valid()
      modifies this
      ensures Valid()
      ensures questionId !in old(questions) ==> r == NotFound && unchanged(this)
      ensures questionId in old(questions) ==>
        r == Redirect(NextOr(next)) && QuestionVoteApplied(user, questionId, UPVOTE)
    {
      var found := VoteOnQuestion(user, questionId, UPVOTE);
      r := if found then Redirect(NextOr(next)) else NotFound;
    }

    /** downvote_question */
    method DownvoteQuestion(user: UserId, questionId: QuestionId, next: Option<string>) returns (r: Reply)
      requires Valid()
      modifies this
      ensures Valid()
      ensures questionId !in old(questions) ==> r == NotFound && unchanged(this)
      ensures questionId in old(questions) ==>
        r == Redirect(NextOr(next)) && QuestionVoteApplied(user, questionId, DOWNVOTE)
    {
      var found := VoteOnQuestion(user, questionId, DOWNVOTE);
      r := if found then Redirect(NextOr(next)) else NotFound;
    }

    /** upvote_response: afterwards the reply is the page of the response's question. */
    method UpvoteResponse(user: UserId, responseId: ResponseId) returns (r: Reply)
      requires Valid()
      modifies this
      ensures Valid()
      ensures responseId !in old(responses) ==> r == NotFound && unchanged(this)
      ensures responseId in old(responses) ==>
        && r == Redirect(DetailUrl(old(questions[responses[responseId].question]).slug))
        && ResponseVoteApplied(user, responseId, UPVOTE)
    {
      var found := VoteOnResponse(user, responseId, UPVOTE);
      r := if found then Redirect(DetailUrl(questions[responses[responseId].question].slug)) else NotFound;
    }

    /** downvote_response */
    method DownvoteResponse(user: UserId, responseId: ResponseId) returns (r: Reply)
      requires Valid()
      modifies this
      ensures Valid()
      ensures responseId !in old(responses) ==> r == NotFound && unchanged(this)
      ensures responseId in old(responses) ==>
        && r == Redirect(DetailUrl(old(questions[responses[responseId].question]).slug))
        && ResponseVoteApplied(user, responseId, DOWNVOTE)
    {
      var found := VoteOnResponse(user, responseId, DOWNVOTE);
      r := if found then Redirect(DetailUrl(questions[responses[responseId].question].slug)) else NotFound;
    }

    /** update_question: only the questioner may edit; a valid submitted form
        rewrites title, description and tags and keeps the slug. */
    method UpdateQuestion(user: UserId, slug: string, formValid: bool, title: string, description: string,
                          tags: set<TagId>, next: Option<string>) returns (r: Reply)
      requires Valid()
      modifies this
      ensures Valid()
      ensures old(QuestionBySlug(slug)).None? ==> r == NotFound
      ensures old(QuestionBySlug(slug)).Some? ==>
        var id := old(QuestionBySlug(slug)).value;
        && (old(questions[id]).questioner != user ==> r == Forbidden)
        && (old(questions[id]).questioner == user && !formValid ==> r == Rendered)
        && (old(questions[id]).questioner == user && formValid ==>
              && r == Redirect(NextOr(next))
              && questions == old(questions)[id := old(questions[id]).(title := title, description := description,
                                                                        tags := tags)])
      ensures !r.Redirect? ==> unchanged(this)
      ensures responses == old(responses) && questionVotes == old(questionVotes) && responseVotes == old(responseVotes)
      ensures nextQuestionId == old(nextQuestionId) && nextResponseId == old(nextResponseId)
    {
      var found := QuestionBySlug(slug);
      if found.None? {
        return NotFound;
      }
      var id := found.value;
      var question := questions[id];
      if question.questioner != user {
        return Forbidden;
      }
      if !formValid {
        return Rendered;
      }
      var _ := SaveQuestion(Some(id), question.(title := title, description := description, tags := tags));
      r := Redirect(NextOr(next));
    }

    /** delete_question: only the questioner may delete, and only on POST. The
        delete cascades to the question's responses, its vote rows, and the
        vote rows of those responses. */
    method DeleteQuestion(user: UserId, slug: string, post: bool, next: Option<string>) returns (r: Reply)
      requires Valid()
      modifies this
      ensures Valid()
      ensures old(QuestionBySlug(slug)).None? ==> r == NotFound
      ensures old(QuestionBySlug(slug)).Some? ==>
        var id := old(QuestionBySlug(slug)).value;
        && (old(questions[id]).questioner != user ==> r == Forbidden)
        && (old(questions[id]).questioner == user && !post ==> r == Rendered)
        && (old(questions[id]).questioner == user && post ==>
              var gone := Dependents(old(responses), id);
              && r == Redirect(AfterDelete(next, slug))
              && questions == old(questions) - {id}
              && responses == old(responses) - gone
              && questionVotes == DropTargets(old(questionVotes), {id})
              && responseVotes == DropTargets(old(responseVotes), gone))
      ensures !r.Redirect? ==> unchanged(this)
      ensures r.Redirect? ==>
        var id := old(QuestionBySlug(slug)).value;
        && id !in questions
        && (forall rid :: rid in responses ==> responses[rid].question != id)
        && (forall x :: x in questionVotes ==> x.target != id)
      ensures nextQuestionId == old(nextQuestionId) && nextResponseId == old(nextResponseId)
    {
      var found := QuestionBySlug(slug);
      if found.None? {
        return NotFound;
      }
      var id := found.value;
      if questions[id].questioner != user {
        return Forbidden;
      }
      if !post {
        return Rendered;
      }
      DeleteQuestionCascade(questions, responses, questionVotes, responseVotes, nextQuestionId, nextResponseId, id);
      var gone := Dependents(responses, id);
      questions, responses := questions - {id}, responses - gone;
      questionVotes, responseVotes := DropTargets(questionVotes, {id}), DropTargets(responseVotes, gone);
      r := Redirect(AfterDelete(next, slug));
    }

    /** update_response: only the respondent may edit (otherwise 400); a valid
        submitted form rewrites the content. */
    method UpdateResponse(user: UserId, responseId: ResponseId, formValid: bool, content: string) returns (r: Reply)
      requires Valid()
      modifies this
      ensures Valid()
      ensures responseId !in old(responses) ==> r == NotFound
      ensures responseId in old(responses) ==>
        var response := old(responses[responseId]);
        && (response.respondent != user ==> r == BadRequest)
        && (response.respondent == user && !formValid ==> r == Rendered)
        && (response.respondent == user && formValid ==>
              && r == Redirect(DetailUrl(old(questions[response.question]).slug))
              && responses == old(responses)[responseId := response.(content := content)])
      ensures !r.Redirect? ==> unchanged(this)
      ensures questions == old(questions) && questionVotes == old(questionVotes) && responseVotes == old(responseVotes)
      ensures nextQuestionId == old(nextQuestionId) && nextResponseId == old(nextResponseId)
    {
      if responseId !in responses {
        return NotFound;
      }
      var response := responses[responseId];
      if user != response.respondent {
        return BadRequest;
      }
      if !formValid {
        return Rendered;
      }
      responses := responses[responseId := response.(content := content)];
      r := Redirect(DetailUrl(questions[response.question].slug));
    }

    /** delete_response: only the respondent may delete (otherwise 400), and
        only on POST; the delete cascades to the response's vote rows. */
    method DeleteResponse(user: UserId, responseId: ResponseId, post: bool) returns (r: Reply)
      requires Valid()
      modifies this
      ensures Valid()
      ensures responseId !in old(responses) ==> r == NotFound
      ensures responseId in old(responses) ==>
        var response := old(responses[responseId]);
        && (response.respondent != user ==> r == BadRequest)
        && (response.respondent == user && !post ==> r == Rendered)
        && (response.respondent == user && post ==>
              && r == Redirect(DetailUrl(old(questions[response.question]).slug))
              && responses == old(responses) - {responseId}
              && responseVotes == DropTargets(old(responseVotes), {responseId}))
      ensures !r.Redirect? ==> unchanged(this)
      ensures questions == old(questions) && questionVotes == old(questionVotes)
      ensures nextQuestionId == old(nextQuestionId) && nextResponseId == old(nextResponseId)
    {
      if responseId !in responses {
        return NotFound;
      }
      var response := responses[responseId];
      if user != response.respondent {
        return BadRequest;
      }
      if !post {
        return Rendered;
      }
      var questionSlug := questions[response.question].slug;
      DeleteResponseCascade(questions, responses, questionVotes, responseVotes, nextQuestionId, nextResponseId,
                            responseId);
      responses := responses - {responseId};
      responseVotes := DropTargets(responseVotes, {responseId});
      r := Redirect(DetailUrl(questionSlug));
    }
  }

  /** The database invariant: keys below the next key, no dangling
      reference, unique slugs, one vote row per (user, target), and cached
      counters equal to the number of vote rows of each sign. */
  ghost predicate Database(qs: map<QuestionId, Question>, rs: map<ResponseId, Response>,
                           qv: seq<VoteRow>, rv: seq<VoteRow>, nq: nat, nr: nat)
  {
    && (forall id :: id in qs ==> id < nq)
    && (forall id :: id in rs ==> id < nr && rs[id].question in qs)
    && (forall a, b :: a in qs && b in qs && a != b ==> qs[a].slug != qs[b].slug)
    && Unique(qv)
    && Unique(rv)
    && (forall x :: x in qv ==> x.target in qs)
    && (forall x :: x in rv ==> x.target in rs)
    && (forall id :: id in qs ==> Consistent(qv, id, qs[id].Counts()))
    && (forall id :: id in rs ==> Consistent(rv, id, rs[id].Counts()))
  }

  /** The responses to question `id`, which its deletion takes along. */
  function Dependents(rs: map<ResponseId, Response>, id: QuestionId): (gone: set<ResponseId>)
    ensures forall rid :: rid in gone <==> rid in rs && rs[rid].question == id
  {
    set rid | rid in rs && rs[rid].question == id
  }

  /** A cast on question `id`, with the question's counters saved, keeps the
      database invariant. */
  lemma QuestionVoteKeeps(qs: map<QuestionId, Question>, rs: map<ResponseId, Response>,
                          qv: seq<VoteRow>, rv: seq<VoteRow>, nq: nat, nr: nat,
                          user: UserId, id: QuestionId, dir: VoteValue)
    requires Database(qs, rs, qv, rv, nq, nr)
    requires id in qs
    ensures var b := Cast(qv, qs[id].Counts(), user, id, dir);
            Database(qs[id := qs[id].(upvotes := b.counters.upvotes, downvotes := b.counters.downvotes)],
                     rs, b.rows, rv, nq, nr)
  {
    var b := Cast(qv, qs[id].Counts(), user, id, dir);
    CastVoteState(qv, qs[id].Counts(), user, id, dir);
    CastKeepsConsistent(qv, qs[id].Counts(), user, id, dir);
    PutUnique(qv, user, id, Next(VoteOf(qv, user, id), dir));
  }

  /** A cast on response `id`, with the response's counters saved, keeps the
      database invariant. */
  lemma ResponseVoteKeeps(qs: map<QuestionId, Question>, rs: map<ResponseId, Response>,
                          qv: seq<VoteRow>, rv: seq<VoteRow>, nq: nat, nr: nat,
                          user: UserId, id: ResponseId, dir: VoteValue)
    requires Database(qs, rs, qv, rv, nq, nr)
    requires id in rs
    ensures var b := Cast(rv, rs[id].Counts(), user, id, dir);
            Database(qs, rs[id := rs[id].(upvotes := b.counters.upvotes, downvotes := b.counters.downvotes)],
                     qv, b.rows, nq, nr)
  {
    var b := Cast(rv, rs[id].Counts(), user, id, dir);
    CastVoteState(rv, rs[id].Counts(), user, id, dir);
    CastKeepsConsistent(rv, rs[id].Counts(), user, id, dir);
    PutUnique(rv, user, id, Next(VoteOf(rv, user, id), dir));
  }

  /** Deleting a question with everything that hangs off it keeps the
      database invariant. */
  lemma DeleteQuestionCascade(qs: map<QuestionId, Question>, rs: map<ResponseId, Response>,
                              qv: seq<VoteRow>, rv: seq<VoteRow>, nq: nat, nr: nat, id: QuestionId)
    requires Database(qs, rs, qv, rv, nq, nr)
    ensures var gone := Dependents(rs, id);
            Database(qs - {id}, rs - gone, DropTargets(qv, {id}), DropTargets(rv, gone), nq, nr)
    ensures var gone := Dependents(rs, id);
            && (forall rid :: rid in rs - gone ==> (rs - gone)[rid].question != id)
            && (forall x :: x in DropTargets(qv, {id}) ==> x.target != id)
  {
    var gone := Dependents(rs, id);
    var qs', rs' := qs - {id}, rs - gone;
    var qv', rv' := DropTargets(qv, {id}), DropTargets(rv, gone);
    DropTargetsUnique(qv, {id});
    DropTargetsUnique(rv, gone);
    forall t | t in qs' ensures Consistent(qv', t, qs'[t].Counts()) {
      DropTargetsTally(qv, {id}, t, UPVOTE);
      DropTargetsTally(qv, {id}, t, DOWNVOTE);
    }
    forall t | t in rs' ensures Consistent(rv', t, rs'[t].Counts()) {
      DropTargetsTally(rv, gone, t, UPVOTE);
      DropTargetsTally(rv, gone, t, DOWNVOTE);
    }
  }

  /** Deleting a response with its vote rows keeps the database invariant. */
  lemma DeleteResponseCascade(qs: map<QuestionId, Question>, rs: map<ResponseId, Response>,
                              qv: seq<VoteRow>, rv: seq<VoteRow>, nq: nat, nr: nat, id: ResponseId)
    requires Database(qs, rs, qv, rv, nq, nr)
    ensures Database(qs, rs - {id}, qv, DropTargets(rv, {id}), nq, nr)
  {
    var rs', rv' := rs - {id}, DropTargets(rv, {id});
    DropTargetsUnique(rv, {id});
    forall t | t in rs' ensures Consistent(rv', t, rs'[t].Counts()) {
      DropTargetsTally(rv, {id}, t, UPVOTE);
      DropTargetsTally(rv, {id}, t, DOWNVOTE);
    }
  }

  /** A target with a positive tally has a row in the table. */
  lemma {:induction false} NoTallyWithoutRow(rows: seq<VoteRow>, t: TargetId, v: VoteValue)
    requires Tally(rows, t, v) > 0
    ensures exists x :: x in rows && x.target == t
  {
    if rows[0].target == t && rows[0].vote == v {
      assert rows[0] in rows;
    } else {
      NoTallyWithoutRow(rows[1..], t, v);
      var x :| x in rows[1..] && x.target == t;
      assert x in rows;
    }
  }
}
