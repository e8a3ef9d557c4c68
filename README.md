# Forum vote toggle and record rules, modelled in Dafny

This project models the core of a small Django question-and-answer forum
(the `forum` app). Users ask questions, answer them with responses, and vote
questions and responses up or down. The model covers four parts:

- **The vote toggle** (`toggle.dfy`). One user's vote on one target is in one
  of three states: no vote, upvote or downvote. Casting the vote the user
  already holds retracts it. Casting the opposite vote flips it. Casting with
  no vote creates it. The target caches an `upvotes` and a `downvotes`
  counter. `Toggle.ApplyVote` is the one generic toggle, with the three
  branches the four vote handlers share. It is proved equal to the reference
  definition `Toggle.Cast`. Lemmas about `Cast` show that each counter keeps
  equal to the number of vote rows of its sign.
- **The vote tables** (`vote_table.dfy`). These are the `VoteQuestion` and
  `VoteResponse` tables. Each is a sequence of rows (user, target, vote) with
  vote in {1, -1} and at most one row per (user, target). `Put` is the write
  of one key: delete, update in place or insert.
- **The records and read queries** (`models.dfy`, `slugs.dfy`):
  - question and response records, with counters defaulting to 0;
  - the slug drawn on a question's first save;
  - the question lists (newest first, optionally filtered by tag name);
  - the lookup by slug and the responses of a question;
  - the per-viewer `user_upvoted` / `user_downvoted` annotations.
- **The request handlers** (`views.dfy`). A `Forum` object holds the four
  tables and the next primary keys. Its methods are the handlers that write:
  - asking a question and posting an answer;
  - the four vote handlers, each a thin wrapper around one generic
    `VoteOnQuestion` / `VoteOnResponse` step;
  - updating and deleting a question or a response, behind the ownership
    guards;
  - the redirect choice after a question is deleted.

  Two functions of the `Forum` read its own tables: the question list of the
  home and tag pages, and the question page with its responses.

  Every handler keeps the database invariant `Views.Database`:
  - no dangling references;
  - unique slugs;
  - one vote row per (user, target);
  - counters that agree with the vote tables.

Modelling choices:

- The current user, the form outcome, whether the request is a POST and the
  `next` parameter are inputs to each handler. The reply is a `Reply` value.
- Tables are maps keyed by primary key. Keys are handed out in increasing
  order, so "newest first" by `created_at` is descending key order.
- The framework's `slugify` is a function the `Forum` is built with.
- `randint(11111111, 99999999)` is a nondeterministic choice in that range.
- Each handler is one sequential step. The code uses no explicit transaction.

Behaviour of the code worth noting:

- Editing or deleting someone else's response answers 400 (`BadRequest`).
  Only questions answer 403 (`Forbidden`).
- A delete request that is not a POST renders a confirmation page and deletes
  nothing.
- The vote handlers run no transaction.
- `post_answer` for a missing question ends in an unhandled error
  (`ServerError`). The bare `except` raises an `HttpResponseBadRequest`
  object, which is not an exception.
- A slug collision on insert is not retried. It fails on the unique column
  (`ServerError`), and nothing is written.

## Model

| member | source | states |
|---|---|---|
| VoteTable.IndexOf | forum/views.py:88-90 | get_or_create's lookup of the (user, target) row: an index that holds that key with no earlier row holding it, or None exactly when no row holds the key |
| VoteTable.VoteOfMembership | forum/models.py:198-210 | with one row per (user, target), the vote read for (u, t) is v exactly when the row (u, t, v) is stored |
| VoteTable.PutUnique | forum/models.py:209-210 | writing one key's row (delete, update, insert) keeps at most one row per (user, target) and adds no row for another key |
| VoteTable.PutVoteOf | forum/views.py:92-101 | after writing key (u, t) its vote is exactly the written state, and every other (user, target) keeps its vote |
| VoteTable.PutTally | forum/views.py:92-101 | writing key (u, t) changes the count of v-rows on t by what the new state counts minus what the old one counted, and changes no other target's count |
| VoteTable.PutThenRemove | forum/views.py:88-94 | from no row, creating the row and deleting it again gives back exactly the original table |
| VoteTable.CountVotesIsContribution | forum/models.py:55-68 | with unique rows, the number of the viewer's v-rows on a target is 1 when the viewer's vote is v and 0 otherwise |
| VoteTable.DropTargets | forum/models.py:204-205 | the cascade on vote rows keeps exactly the rows whose target survives |
| VoteTable.DropTargetsTally | forum/models.py:219-220 | after the cascade a deleted target counts no votes and every surviving target keeps its counts |
| VoteTable.DropTargetsUnique | forum/models.py:224-225 | the cascade keeps at most one row per (user, target) |
| Toggle.Recount | forum/views.py:92-101 | the counters step as the handler steps them: unchanged when the vote state does not move, the old vote's counter down by one on a retraction, the new vote's counter up by one on a first vote, and down-then-up on a flip |
| Toggle.ApplyVote | forum/views.py:88-101 | the three branches (repeat deletes, opposite flips, none creates) produce exactly the table and counters of the reference cast |
| Toggle.CastVoteState | forum/views.py:113-126 | a cast retracts the vote exactly when it repeats the vote held and otherwise leaves the cast vote; no other user's or target's vote moves; rows stay unique |
| Toggle.CastKeepsConsistent | forum/views.py:86-181 | if the target's counters equal the numbers of +1 and -1 rows before a cast they do after it, and every other target's counts are unchanged |
| Toggle.CastCounters | forum/views.py:164-177 | counter deltas per branch: a repeat takes one off its counter, a flip moves one from the opposite counter, a first vote adds one |
| Toggle.CastTwiceRestores | forum/views.py:109-131 | from no vote, casting the same way twice restores both the vote table and both counters |
| Toggle.UpDownDownScenario | forum/views.py:84-131 | upvote, downvote, downvote from no votes leave the vote up, down, none and the counters (1, 0), (0, 1), (0, 0) |
| Slugs.ParseDecimalString | forum/models.py:28 | the decimal text of the drawn number reads back as that number |
| Slugs.SuffixIsEightDigits | forum/models.py:28 | every number drawn from [11111111, 99999999] is written with exactly eight digits |
| Slugs.NewSlugParts | forum/models.py:26-29 | a new slug is the slugified title, a dash and eight digits that denote the drawn number |
| Models.GetQuestions | forum/models.py:34-105 | the list holds every question passing the tag-name filter exactly once, newest first, each with the viewer's annotation |
| Models.GetQuestionInfo | forum/models.py:107-150 | the annotated question carrying the slug, and None exactly when no question carries it |
| Models.GetResponseList | forum/models.py:162-192 | every response to the question exactly once, none to another question, each with the viewer's annotation |
| Models.AnnotationMeaning | forum/models.py:176-192 | anonymous viewers get no flags; for a signed-in viewer each flag is 1 exactly when the viewer holds that vote, so each is 0 or 1 and never both 1 |
| Views.AfterDelete | forum/views.py:226-229 | after a question is deleted the redirect is `next`, unless `next` is that question's page, in which case it is "/"; never the deleted page |
| Views.QuestionVoteKeeps | forum/views.py:86-103 | a cast on a question, with the question's new counters saved, keeps the database invariant: unique vote rows, no vote on a missing target, counters equal to the row counts of every target |
| Views.ResponseVoteKeeps | forum/views.py:136-154 | the same for a cast on a response |
| Views.DeleteQuestionCascade | forum/models.py:153-156 | deleting a question with its responses, its votes and its responses' votes keeps the database invariant and leaves no response or vote referring to it |
| Views.DeleteResponseCascade | forum/models.py:213-222 | deleting a response with its votes keeps the database invariant |
| Views.Forum.QuestionList | forum/views.py:15-18 | the list read from the forum's own tables: only questions passing the tag filter, and, with the invariant in place, every such question (home with no tag; `list_question_by_tag` at views.py:184-189 with one) |
| Views.Forum.QuestionDetail | forum/views.py:39-52 | the question with the slug together with its responses, or None (the 404) exactly when no question has the slug; every response listed belongs to that question and, with the invariant in place, every response to it is listed |
| Views.Forum.SaveQuestion | forum/models.py:26-29 | on first save a slug slugify(title)-n with n in range is drawn and the row is inserted under a fresh key unless the slug is taken; later saves write the record and keep its slug |
| Views.Forum.AskQuestion | forum/views.py:25-36 | a valid form inserts the user's question under the next key with counters 0, the given fields, a new unique slug and no votes, then redirects home; it fails only when the drawn slug is already taken, and then, like an invalid form, changes nothing |
| Views.Forum.PostAnswer | forum/views.py:65-81 | a valid answer to an existing question inserts the user's response with counters 0; the reply is that question's page; a missing question fails with no change |
| Views.Forum.VoteOnQuestion | forum/views.py:87-103 | a missing question changes nothing; otherwise the table and the question's counters become those of the cast, the slug is kept and the invariant holds |
| Views.Forum.VoteOnResponse | forum/views.py:137-154 | the same step on responses |
| Views.Forum.UpvoteQuestion | forum/views.py:84-106 | 404 and no change for a missing question; otherwise an upvote cast and a redirect to `next` or "/" |
| Views.Forum.DownvoteQuestion | forum/views.py:109-131 | 404 and no change for a missing question; otherwise a downvote cast and a redirect to `next` or "/" |
| Views.Forum.UpvoteResponse | forum/views.py:134-156 | 404 and no change for a missing response; otherwise an upvote cast and a redirect to its question's page |
| Views.Forum.DownvoteResponse | forum/views.py:159-181 | 404 and no change for a missing response; otherwise a downvote cast and a redirect to its question's page |
| Views.Forum.UpdateQuestion | forum/views.py:192-213 | 404 for an unknown slug, 403 and no change for a non-owner, no change without a valid form; otherwise title, description and tags are rewritten, the slug kept, and the reply redirects to `next` |
| Views.Forum.DeleteQuestion | forum/views.py:216-235 | 404, 403 for a non-owner, no change without a POST; otherwise the question, its responses and all their votes are gone and the redirect follows AfterDelete |
| Views.Forum.UpdateResponse | forum/views.py:238-255 | 404, 400 and no change for a non-owner, no change without a valid form; otherwise the content is rewritten and the reply is the question's page |
| Views.Forum.DeleteResponse | forum/views.py:258-272 | 404, 400 and no change for a non-owner, no change without a POST; otherwise the response and its votes are gone and the reply is the question's page |

## Left out

- HTTP plumbing is not modelled: rendering, form parsing and validation, and the `login_required` / `require_POST` decorators. The handlers take the signed-in user, the form outcome and the request method as inputs.
- `home`, `list_question_by_tag` and `question_detail` are modelled only by what they read (`Views.Forum.QuestionList`, `Views.Forum.QuestionDetail`); the template rendering is not. `about` renders a static page.
- `questions_asked_by_current_user` is not modelled: it narrows the signed-in user's question list to their own questions and renders it.
- The `users` app (registration, profile, password change), the URL tables, the form field lists and the front-end script are not part of this model.
- `slugify` and `randint` are framework and library code. They are a function parameter and a nondeterministic choice.
- Timestamps (`created_at`, `updated_at`) are not modelled. Creation order is key order.
- ORM loading options (`select_related`, `only`, `prefetch_related`) are not modelled. They change how rows are loaded, not which rows.
- Concurrency is not modelled. Each handler is one sequential step, as the code runs no transaction.
- Models.GetQuestions: when a question carries two tags of the same name, the tag filter's join matches it twice. For an anonymous viewer the unannotated query then returns that question twice. For a signed-in viewer the annotation groups by question, so it appears once but each flag is multiplied by the number of matching tags. The model filters on "carries a tag with that name", returns each question once, and counts each vote once.
- Models.GetResponseList: the query sets no order. The model returns responses in key order, and its contract promises no order.
- Views.DetailUrl assumes the forum's URLs are mounted at the site root, so a question's page is "/question/<slug>/".
- Deleting a user, and the cascades that follow from it, is not modelled. No handler of the forum app deletes users.
- A stored vote other than 1 or -1 cannot be expressed: the `VoteValue` type excludes it, as the field's choices do.
- Tags are read-only here. No handler of the forum app creates or deletes tags.
