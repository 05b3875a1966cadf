/** The keyword queue (`aiseo_enqueue_keywords`, `aiseo_process_queue`):
    items are appended, then drained in order. Each item's reply is checked
    for five required keys and turned into a draft post; the item leaves the
    queue only when the post was created, and every failure leaves it where
    it is and moves on.

    WordPress and OpenAI are parameters gathered in `Env`: the transport
    result of the request sent for queue position `p`, the post id
    `wp_insert_post` returns for position `p` (0 for failure), Parsedown, and
    `esc_html`. */
module Queue {
  import opened Wrappers
  import opened Text
  import opened Json
  import opened OpenAi
  import Faq

  datatype Item = Item(keyword: string, postLength: string, context: string, toneStyle: string)

  // ---------------------------------------------------------------------
  // enqueue
  // ---------------------------------------------------------------------

  /** One item per keyword, appended in order, all sharing the same length,
      context and tone; nothing is de-duplicated. */
  function Enqueue(queue: seq<Item>, keywords: seq<string>, postLength: string, context: string, toneStyle: string): (r: seq<Item>)
    ensures |r| == |queue| + |keywords|
    ensures r[..|queue|] == queue
    ensures forall i :: 0 <= i < |keywords| ==> r[|queue| + i] == Item(keywords[i], postLength, context, toneStyle)
    decreases |keywords|
  {
    if keywords == [] then queue
    else Enqueue(queue + [Item(keywords[0], postLength, context, toneStyle)], keywords[1..], postLength, context, toneStyle)
  }

  /** `array_column($queue, 'keyword')`. */
  function Keywords(queue: seq<Item>): seq<string>
  {
    seq(|queue|, i requires 0 <= i < |queue| => queue[i].keyword)
  }

  /** The batch keyword list after an enqueue is the old one followed by the
      new keywords. */
  lemma EnqueueBatch(queue: seq<Item>, keywords: seq<string>, postLength: string, context: string, toneStyle: string)
    ensures Keywords(Enqueue(queue, keywords, postLength, context, toneStyle)) == Keywords(queue) + keywords
  {
    var r := Enqueue(queue, keywords, postLength, context, toneStyle);
    assert forall i :: 0 <= i < |queue| ==> r[i] == r[..|queue|][i];
  }

  // ---------------------------------------------------------------------
  // validation
  // ---------------------------------------------------------------------

  const RequiredKeys: seq<string> := ["titles", "content", "excerpt", "category", "tags"]

  /** All five `isset` checks pass. */
  predicate HasRequiredKeys(content: Value) {
    forall i :: 0 <= i < |RequiredKeys| ==> IsSet(content, RequiredKeys[i])
  }

  /** `array_diff($keys, $present)`: the keys not present, in their order. */
  function Without(keys: seq<string>, present: seq<string>): (r: seq<string>)
    ensures forall k :: k in r <==> k in keys && k !in present
    ensures |r| <= |keys|
  {
    if keys == [] then []
    else if keys[0] in present then Without(keys[1..], present)
    else [keys[0]] + Without(keys[1..], present)
  }

  /** The required keys the reply does not have at all. */
  function MissingKeys(content: Value): seq<string>
  {
    Without(RequiredKeys, Keys(content))
  }

  const MissingPrefix := "Invalid response format from OpenAI. Missing keys: "

  /** Accepts a reply iff all five required keys are set; otherwise the
      error lists the keys missing from the reply. */
  function Validate(content: Value): (r: Outcome<string>)
    ensures r.Pass? <==> HasRequiredKeys(content)
    ensures r.Fail? ==> HasPrefix(r.error, MissingPrefix)
  {
    if HasRequiredKeys(content) then Pass
    else
      var m := MissingPrefix + Join(MissingKeys(content), ", ");
      assert m[..|MissingPrefix|] == MissingPrefix;
      Fail(m)
  }

  /** A required key that is present but null fails validation, yet is not
      named among the missing keys. */
  lemma NullKeyNotListed(content: Value, key: string)
    requires key in RequiredKeys && key in Keys(content)
    requires Get(content, key) == Null
    ensures Validate(content).Fail?
    ensures key !in MissingKeys(content)
  {
    var i :| 0 <= i < |RequiredKeys| && RequiredKeys[i] == key;
    assert !IsSet(content, RequiredKeys[i]);
  }

  /** A key is reported missing exactly when it is required and absent. */
  lemma MissingKeyListed(content: Value, key: string)
    ensures key in MissingKeys(content) <==> key in RequiredKeys && key !in Keys(content)
  {
  }

  // ---------------------------------------------------------------------
  // building the post
  // ---------------------------------------------------------------------

  /** Where the SEO fields go: Rank Math's helper when it is loaded, plain
      post meta otherwise. Both receive the same three values. */
  datatype SeoSink = RankMathHelper | PostMetaFallback

  datatype Seo = Seo(focusKeyword: string, title: string, description: string)

  datatype Post = Post(
    id: nat,
    title: string,
    content: string,
    excerpt: string,
    category: string,
    tags: Value,
    status: string,
    generated: bool,
    alternateTitles: seq<Value>,
    seo: Seo,
    seoSink: SeoSink,
    initialKeywords: seq<string>)

  datatype Env = Env(
    respond: (nat, Prompt) -> Result<string, string>,
    insert: nat -> nat,
    markdown: string -> string,
    esc: string -> string,
    sink: SeoSink)

  /** `array_slice($titles, 1)`: every title but the first. */
  function AlternateTitles(titles: Value): seq<Value>
  {
    var all := Elements(titles);
    if all == [] then [] else all[1..]
  }

  /** The processed body, followed by the FAQ block when the reply's `faqs`
      is an array. */
  function PostContent(body: string, faqs: Value, esc: string -> string): (r: string)
    ensures HasPrefix(r, body)
    ensures IsArray(faqs) ==> r == body + Faq.Block(faqs, esc)
    ensures !IsArray(faqs) ==> r == body
  {
    var r := if IsArray(faqs) then body + Faq.Block(faqs, esc) else body;
    assert r[..|body|] == body;
    r
  }

  /** The draft post created for an accepted reply. */
  function BuildPost(item: Item, content: Value, id: nat, batch: seq<string>, env: Env): Post
  {
    var title := ToText(Get(Get(content, "titles"), "0"));
    var excerpt := ToText(Get(content, "excerpt"));
    var body := ProcessContent(env.markdown, ToText(Get(content, "content")));
    Post(id, title, PostContent(body, Get(content, "faqs"), env.esc), excerpt,
         ToText(Get(content, "category")), Get(content, "tags"), "draft", true,
         AlternateTitles(Get(content, "titles")), Seo(item.keyword, title, excerpt), env.sink, batch)
  }

  datatype ItemOutcome = Created(post: Post) | Failed(message: string)

  /** The request sent for an item: the new-post prompt for its keyword,
      mentioning the whole batch. */
  function RequestFor(item: Item, batch: seq<string>): (p: Prompt)
    ensures p == NewPostPrompt(item.keyword, item.postLength, item.context, item.toneStyle, KeywordInstruction(batch))
  {
    KeywordSelectsNewPost(item.keyword, item.postLength, item.context, item.toneStyle, batch);
    SelectPrompt(Str(item.keyword), item.postLength, item.context, item.toneStyle, batch)
  }

  /** One pass of the loop body: request, validate, create. `transport` is
      the request's outcome and `id` what `wp_insert_post` returned. */
  function ProcessItem(item: Item, batch: seq<string>, transport: Result<string, string>, id: nat, env: Env): (r: ItemOutcome)
    ensures r.Created? <==> RequestContent(transport).Success? && HasRequiredKeys(RequestContent(transport).value) && id != 0
    ensures RequestContent(transport).Failure? ==> r == Failed(RequestContent(transport).error)
    ensures RequestContent(transport).Success? && id == 0 && HasRequiredKeys(RequestContent(transport).value)
            ==> r == Failed("Failed to create post.")
    ensures r.Created? ==> r.post.id == id && r.post.status == "draft" && r.post.initialKeywords == batch
  {
    match RequestContent(transport)
    case Failure(message) => Failed(message)
    case Success(content) =>
      match Validate(content)
      case Fail(message) => Failed(message)
      case Pass =>
        if id == 0 then Failed("Failed to create post.")
        else Created(BuildPost(item, content, id, batch, env))
  }

  /** The SEO title is the post title and both are the first title; the focus
      keyword is the item's keyword and the description is the excerpt,
      whichever sink receives them. */
  lemma CreatedPostFields(item: Item, batch: seq<string>, transport: Result<string, string>, id: nat, env: Env)
    requires ProcessItem(item, batch, transport, id, env).Created?
    ensures var post := ProcessItem(item, batch, transport, id, env).post;
            var content := RequestContent(transport).value;
            post.title == ToText(GetPath(content, ["titles", "0"])) &&
            post.seo == Seo(item.keyword, post.title, ToText(Get(content, "excerpt"))) &&
            post.excerpt == post.seo.description &&
            post.seoSink == env.sink &&
            post.alternateTitles == AlternateTitles(Get(content, "titles")) &&
            post.category == ToText(Get(content, "category")) &&
            post.tags == Get(content, "tags") &&
            post.generated
  {
  }

  /** The created post's content is the processed body, then the FAQ block
      exactly when the reply's `faqs` is an array; the block brings the FAQ
      heading with it. */
  lemma CreatedPostContent(item: Item, batch: seq<string>, transport: Result<string, string>, id: nat, env: Env)
    requires ProcessItem(item, batch, transport, id, env).Created?
    ensures var post := ProcessItem(item, batch, transport, id, env).post;
            var content := RequestContent(transport).value;
            var body := ProcessContent(env.markdown, ToText(Get(content, "content")));
            var faqs := Get(content, "faqs");
            post.content == PostContent(body, faqs, env.esc) &&
            HasPrefix(post.content, body) &&
            (IsArray(faqs) ==> post.content == body + Faq.Block(faqs, env.esc) && Contains(post.content, Faq.Marker)) &&
            (!IsArray(faqs) ==> post.content == body)
  {
    var content := RequestContent(transport).value;
    var body := ProcessContent(env.markdown, ToText(Get(content, "content")));
    var faqs := Get(content, "faqs");
    if IsArray(faqs) {
      ContainsAppendRight(body, Faq.Block(faqs, env.esc), Faq.Marker);
    }
  }

  // ---------------------------------------------------------------------
  // the drain
  // ---------------------------------------------------------------------

  /** The outcome of the item at position `p` of the queue as read at the
      start of the drain. */
  function OutcomeAt(queue: seq<Item>, p: nat, env: Env): ItemOutcome
    requires p < |queue|
  {
    var batch := Keywords(queue);
    ProcessItem(queue[p], batch, env.respond(p, RequestFor(queue[p], batch)), env.insert(p), env)
  }

  /** Every item's outcome, by queue position. */
  function Outcomes(queue: seq<Item>, env: Env): (os: seq<ItemOutcome>)
    ensures |os| == |queue|
  {
    seq(|queue|, p requires 0 <= p < |queue| => OutcomeAt(queue, p, env))
  }

  /** Which items got their post. */
  function CreatedMask(outcomes: seq<ItemOutcome>): (m: seq<bool>)
    ensures |m| == |outcomes|
    ensures forall p :: 0 <= p < |m| ==> m[p] == outcomes[p].Created?
  {
    seq(|outcomes|, p requires 0 <= p < |outcomes| => outcomes[p].Created?)
  }

  /** The posts created, in queue order. */
  function CreatedPosts(outcomes: seq<ItemOutcome>): (r: seq<Post>)
    ensures |r| <= |outcomes|
  {
    if outcomes == [] then []
    else
      var last := outcomes[|outcomes| - 1];
      CreatedPosts(outcomes[..|outcomes| - 1]) + (if last.Created? then [last.post] else [])
  }

  /** A post stamped with the batch's keywords, as a draft. */
  predicate Stamped(post: Post, batch: seq<string>) {
    post.initialKeywords == batch && post.status == "draft"
  }

  lemma {:induction false} CreatedPostsStamped(outcomes: seq<ItemOutcome>, batch: seq<string>)
    requires forall p :: 0 <= p < |outcomes| && outcomes[p].Created? ==> Stamped(outcomes[p].post, batch)
    ensures forall k :: 0 <= k < |CreatedPosts(outcomes)| ==> Stamped(CreatedPosts(outcomes)[k], batch)
    decreases |outcomes|
  {
    if outcomes != [] {
      var front := outcomes[..|outcomes| - 1];
      assert forall p :: 0 <= p < |front| ==> front[p] == outcomes[p];
      CreatedPostsStamped(front, batch);
    }
  }

  /** Every post a drain creates is a draft carrying the whole batch's keywords. */
  lemma OutcomesStamped(queue: seq<Item>, env: Env)
    ensures forall p :: 0 <= p < |queue| && Outcomes(queue, env)[p].Created? ==>
              Stamped(Outcomes(queue, env)[p].post, Keywords(queue))
  {
    forall p | 0 <= p < |queue| && Outcomes(queue, env)[p].Created?
      ensures Stamped(Outcomes(queue, env)[p].post, Keywords(queue))
    {
      assert Outcomes(queue, env)[p] == OutcomeAt(queue, p, env);
    }
  }

  /** The items whose post was not created, in queue order. */
  function Survivors(items: seq<Item>, created: seq<bool>): (r: seq<Item>)
    requires |created| == |items|
    ensures |r| <= |items|
  {
    if items == [] then []
    else (if created[0] then [] else [items[0]]) + Survivors(items[1..], created[1..])
  }

  lemma {:induction false} SurvivorsAppend(a: seq<Item>, ca: seq<bool>, b: seq<Item>, cb: seq<bool>)
    requires |ca| == |a| && |cb| == |b|
    ensures Survivors(a + b, ca + cb) == Survivors(a, ca) + Survivors(b, cb)
    decreases |a|
  {
    if a == [] {
      assert a + b == b && ca + cb == cb;
    } else {
      assert (a + b)[1..] == a[1..] + b;
      assert (ca + cb)[1..] == ca[1..] + cb;
      assert (a + b)[0] == a[0] && (ca + cb)[0] == ca[0];
      SurvivorsAppend(a[1..], ca[1..], b, cb);
      var head := if ca[0] then [] else [a[0]];
      assert head + (Survivors(a[1..], ca[1..]) + Survivors(b, cb))
          == (head + Survivors(a[1..], ca[1..])) + Survivors(b, cb);
    }
  }

  /** When every post is created the queue ends empty. */
  lemma {:induction false} SurvivorsAllCreated(items: seq<Item>, created: seq<bool>)
    requires |created| == |items|
    requires forall i :: 0 <= i < |created| ==> created[i]
    ensures Survivors(items, created) == []
    decreases |items|
  {
    if items != [] {
      SurvivorsAllCreated(items[1..], created[1..]);
    }
  }

  /** When no post is created the queue is left exactly as it was. */
  lemma {:induction false} SurvivorsNoneCreated(items: seq<Item>, created: seq<bool>)
    requires |created| == |items|
    requires forall i :: 0 <= i < |created| ==> !created[i]
    ensures Survivors(items, created) == items
    decreases |items|
  {
    if items != [] {
      SurvivorsNoneCreated(items[1..], created[1..]);
      assert [items[0]] + items[1..] == items;
    }
  }

  /** Number of items that keep their place. */
  function FailCount(created: seq<bool>): nat
  {
    if created == [] then 0 else (if created[0] then 0 else 1) + FailCount(created[1..])
  }

  /** Exactly the failed items survive: as many as failed, and each failed
      item is among them. */
  lemma {:induction false} SurvivorsAreFailures(items: seq<Item>, created: seq<bool>, i: nat)
    requires |created| == |items| && i < |items|
    ensures |Survivors(items, created)| == FailCount(created)
    ensures !created[i] ==> items[i] in Survivors(items, created)
    decreases |items|
  {
    if i > 0 {
      SurvivorsAreFailures(items[1..], created[1..], i - 1);
    } else if |items| > 1 {
      SurvivorsAreFailures(items[1..], created[1..], 0);
    }
  }

  /** `unset($queue[$key])` on the item at index `idx` of the current queue:
      the items before and after keep their values and order. */
  function RemoveAt(q: seq<Item>, idx: nat): (r: seq<Item>)
    requires idx < |q|
    ensures |r| == |q| - 1
    ensures forall i :: 0 <= i < idx ==> r[i] == q[i]
    ensures forall i :: idx <= i < |r| ==> r[i] == q[i + 1]
  {
    q[..idx] + q[idx + 1..]
  }

  /** One loop pass keeps the drain's picture of the queue: the survivors so
      far, then the items not yet visited. */
  lemma DrainStep(queue: seq<Item>, mask: seq<bool>, p: nat, remaining: seq<Item>)
    requires |mask| == |queue| && p < |queue|
    requires remaining == Survivors(queue[..p], mask[..p]) + queue[p..]
    ensures |remaining| - |queue[p..]| == |Survivors(queue[..p], mask[..p])|
    ensures mask[p] ==> |Survivors(queue[..p + 1], mask[..p + 1])| == |Survivors(queue[..p], mask[..p])|
    ensures !mask[p] ==> |Survivors(queue[..p + 1], mask[..p + 1])| == |Survivors(queue[..p], mask[..p])| + 1
    ensures mask[p] ==> RemoveAt(remaining, |remaining| - |queue[p..]|) == Survivors(queue[..p + 1], mask[..p + 1]) + queue[p + 1..]
    ensures !mask[p] ==> remaining == Survivors(queue[..p + 1], mask[..p + 1]) + queue[p + 1..]
  {
    var item := queue[p];
    var kept := Survivors(queue[..p], mask[..p]);
    SurvivorsAppend(queue[..p], mask[..p], [item], [mask[p]]);
    assert queue[..p + 1] == queue[..p] + [item];
    assert mask[..p + 1] == mask[..p] + [mask[p]];
    assert queue[p..] == [item] + queue[p + 1..];
    SurvivorsOne(item, mask[p]);
    if mask[p] {
      RemoveSpliced(kept, item, queue[p + 1..]);
    } else {
      assert remaining == kept + [item] + queue[p + 1..];
    }
  }

  /** One loop pass appends the visited item's post, if it was created. */
  lemma PostsStep(outcomes: seq<ItemOutcome>, p: nat)
    requires p < |outcomes|
    ensures CreatedPosts(outcomes[..p + 1])
            == CreatedPosts(outcomes[..p]) + (if outcomes[p].Created? then [outcomes[p].post] else [])
  {
    assert outcomes[..p + 1][..p] == outcomes[..p];
  }

  lemma SurvivorsOne(item: Item, created: bool)
    ensures Survivors([item], [created]) == if created then [] else [item]
  {
    assert [item][1..] == [];
  }

  /** Unsetting the entry after the survivors so far closes the gap. */
  lemma RemoveSpliced(kept: seq<Item>, item: Item, rest: seq<Item>)
    ensures RemoveAt(kept + [item] + rest, |kept|) == kept + rest
  {
    var q := kept + [item] + rest;
    assert q[..|kept|] == kept;
    assert q[|kept| + 1..] == rest;
  }

  /** The loop of `aiseo_process_queue` given each item's outcome: an item
      whose post was created is unset from the live queue, every other item
      stays where it is. */
  method ApplyOutcomes(queue: seq<Item>, outcomes: seq<ItemOutcome>) returns (remaining: seq<Item>, posts: seq<Post>)
    requires |outcomes| == |queue|
    ensures remaining == Survivors(queue, CreatedMask(outcomes))
    ensures posts == CreatedPosts(outcomes)
    ensures |posts| + |remaining| == |queue|
  {
    var mask := CreatedMask(outcomes);
    remaining := queue;
    posts := [];
    var p := 0;
    while p < |queue|
      invariant 0 <= p <= |queue|
      invariant remaining == Survivors(queue[..p], mask[..p]) + queue[p..]
      invariant posts == CreatedPosts(outcomes[..p])
      invariant |posts| + |Survivors(queue[..p], mask[..p])| == p
    {
      var old_remaining := remaining;
      var outcome := outcomes[p];
      if outcome.Created? {
        remaining := RemoveAt(remaining, |remaining| - |queue[p..]|);
        posts := posts + [outcome.post];
      }
      DrainStep(queue, mask, p, old_remaining);
      PostsStep(outcomes, p);
      p := p + 1;
    }
    assert queue[..p] == queue && mask[..p] == mask && outcomes[..p] == outcomes;
  }

  /** `aiseo_process_queue`: visits every item of the queue as read at the
      start once, in order, removing an item only once its post exists. The
      same batch keyword list goes into every request and onto every post. */
  method Drain(queue: seq<Item>, env: Env) returns (remaining: seq<Item>, posts: seq<Post>, requests: seq<Prompt>)
    ensures remaining == Survivors(queue, CreatedMask(Outcomes(queue, env)))
    ensures posts == CreatedPosts(Outcomes(queue, env))
    ensures |posts| + |remaining| == |queue|
    ensures |requests| == |queue|
    ensures forall p :: 0 <= p < |queue| ==>
              requests[p] == NewPostPrompt(queue[p].keyword, queue[p].postLength, queue[p].context, queue[p].toneStyle,
                                           KeywordInstruction(Keywords(queue)))
    ensures forall k :: 0 <= k < |posts| ==> posts[k].initialKeywords == Keywords(queue) && posts[k].status == "draft"
  {
    var batch := Keywords(queue);
    requests := seq(|queue|, p requires 0 <= p < |queue| => RequestFor(queue[p], batch));
    var outcomes := Outcomes(queue, env);
    remaining, posts := ApplyOutcomes(queue, outcomes);
    OutcomesStamped(queue, env);
    CreatedPostsStamped(outcomes, batch);
  }

  /** A request that fails in transport leaves its item in the queue. */
  lemma TransportFailureKeepsItem(queue: seq<Item>, env: Env, p: nat)
    requires p < |queue|
    requires env.respond(p, RequestFor(queue[p], Keywords(queue))).Failure?
    ensures !CreatedMask(Outcomes(queue, env))[p]
    ensures queue[p] in Survivors(queue, CreatedMask(Outcomes(queue, env)))
  {
    TransportFailureFails(queue, env, p);
    SurvivorsAreFailures(queue, CreatedMask(Outcomes(queue, env)), p);
  }

  lemma TransportFailureFails(queue: seq<Item>, env: Env, p: nat)
    requires p < |queue|
    requires env.respond(p, RequestFor(queue[p], Keywords(queue))).Failure?
    ensures !CreatedMask(Outcomes(queue, env))[p]
  {
    var transport := env.respond(p, RequestFor(queue[p], Keywords(queue)));
    assert RequestContent(transport).Failure?;
    assert Outcomes(queue, env)[p] == OutcomeAt(queue, p, env);
  }

  /** When `wp_insert_post` fails for an item, the item stays in the queue. */
  lemma InsertFailureKeepsItem(queue: seq<Item>, env: Env, p: nat)
    requires p < |queue|
    requires env.insert(p) == 0
    ensures !CreatedMask(Outcomes(queue, env))[p]
    ensures queue[p] in Survivors(queue, CreatedMask(Outcomes(queue, env)))
  {
    InsertFailureFails(queue, env, p);
    SurvivorsAreFailures(queue, CreatedMask(Outcomes(queue, env)), p);
  }

  lemma InsertFailureFails(queue: seq<Item>, env: Env, p: nat)
    requires p < |queue|
    requires env.insert(p) == 0
    ensures !CreatedMask(Outcomes(queue, env))[p]
  {
    assert !OutcomeAt(queue, p, env).Created?;
    assert Outcomes(queue, env)[p] == OutcomeAt(queue, p, env);
  }

  /** A drain in which nothing succeeds leaves the queue exactly as it was. */
  lemma NothingCreatedKeepsQueue(queue: seq<Item>, env: Env)
    requires forall p :: 0 <= p < |queue| ==> env.insert(p) == 0
    ensures Survivors(queue, CreatedMask(Outcomes(queue, env))) == queue
    ensures CreatedPosts(Outcomes(queue, env)) == []
  {
    var os := Outcomes(queue, env);
    forall p | 0 <= p < |queue|
      ensures !os[p].Created?
    {
      assert os[p] == OutcomeAt(queue, p, env);
    }
    SurvivorsNoneCreated(queue, CreatedMask(os));
    NoCreatedNoPosts(os);
  }

  lemma {:induction false} NoCreatedNoPosts(outcomes: seq<ItemOutcome>)
    requires forall p :: 0 <= p < |outcomes| ==> !outcomes[p].Created?
    ensures CreatedPosts(outcomes) == []
    decreases |outcomes|
  {
    if outcomes != [] {
      var front := outcomes[..|outcomes| - 1];
      assert forall p :: 0 <= p < |front| ==> front[p] == outcomes[p];
      NoCreatedNoPosts(front);
    }
  }

  /** `aiseo_enqueue_keywords`: append one item per keyword, then drain the
      whole queue at once. The batch every request mentions is the old
      queue's keywords followed by the new ones. */
  method EnqueueKeywords(queue: seq<Item>, keywords: seq<string>, postLength: string, context: string, toneStyle: string, env: Env)
    returns (remaining: seq<Item>, posts: seq<Post>, requests: seq<Prompt>)
    ensures var q := Enqueue(queue, keywords, postLength, context, toneStyle);
            remaining == Survivors(q, CreatedMask(Outcomes(q, env))) && posts == CreatedPosts(Outcomes(q, env))
    ensures |requests| == |queue| + |keywords|
    ensures forall p :: 0 <= p < |requests| ==> requests[p].instruction == KeywordInstruction(Keywords(queue) + keywords)
    ensures forall i :: 0 <= i < |keywords| ==>
              requests[|queue| + i] == NewPostPrompt(keywords[i], postLength, context, toneStyle, KeywordInstruction(Keywords(queue) + keywords))
  {
    var q := Enqueue(queue, keywords, postLength, context, toneStyle);
    EnqueueBatch(queue, keywords, postLength, context, toneStyle);
    remaining, posts, requests := Drain(q, env);
  }
}
