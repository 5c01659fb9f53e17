/**
 * The related-content resolver of the connector core: before a translated
 * entity is finished, the terms, menu items, widget menu and featured image
 * it refers to are translated too and the target entity is rewired to the
 * translated ids. Reads and writes that belong to another blog are wrapped
 * in a switch to that blog and a restore afterwards.
 *
 * The WordPress multisite context is a state machine: the current blog, the
 * stack `switch_to_blog` pushes onto, and a trace of external effects, each
 * tagged with the blog that was current when it happened.
 */
module SmartlingCore {
  import opened Wrappers
  import opened OrderedMap

  // WordPress content type names used by the resolver.
  const Category: string := "category"
  const PostTag: string := "post_tag"
  const NavMenu: string := "nav_menu"
  const NavMenuItem: string := "nav_menu_item"
  const Attachment: string := "attachment"
  const Widget: string := "theme_widget"

  const ThumbnailKey: string := "_thumbnail_id"
  const MenuItemType: string := "_menu_item_type"
  const MenuItemObject: string := "_menu_item_object"
  const MenuItemObjectId: string := "_menu_item_object_id"
  const NavMenuSetting: string := "nav_menu"

  datatype Status = New | InProgress | OtherStatus(name: string)

  /** The fields of a submission the resolver reads. */
  datatype Submission = Submission(
    id: nat, contentType: string, sourceBlogId: nat, sourceId: nat,
    targetBlogId: nat, targetId: nat, status: Status, completionPercentage: int)

  /** A post meta or widget setting value: a string, an int written back by the resolver, or a list of strings. */
  datatype MetaValue = MStr(s: string) | MInt(i: int) | MArr(items: seq<string>)

  /** A term as `getTerms` returns it. */
  datatype Term = Term(taxonomy: string, termId: nat)

  /** The external effects the resolver causes. */
  datatype Action =
    | SwitchBlog(blogId: nat)
    | RestoreBlog
    | ReadMetadata(contentId: nat)
    | SetMetaTag(contentId: nat, key: string, value: MetaValue)
    | SaveEntity(contentType: string, contentId: nat, settings: seq<Pair<MetaValue>>)
    | SetPostTerms(postId: nat, ids: seq<nat>, taxonomy: string)
    | AssignMenuItems(menuId: nat, blogId: nat, items: Option<seq<nat>>)
    | DownloadTranslation(submissionId: nat)

  /** An effect and the blog that was current when it happened. */
  datatype Effect = Effect(blog: nat, action: Action)

  datatype State = State(current: nat, stack: seq<nat>, trace: seq<Effect>)

  datatype CoreError = BlogNotFound(blogId: nat) | ActionFailed(action: Action) | SubmissionNotFound(id: nat)

  /** A normal return with a value, or an exception; both carry the state at that point. */
  datatype Outcome<T> = Done(value: T, st: State) | Thrown(error: CoreError, st: State)

  /**
   * The collaborators: blog existence (`switchBlogId` throws for an unknown
   * blog), which entity reads and writes throw, post meta by content id and
   * current blog, and the oracles for terms, menu items, widget settings,
   * translation and submission lookup.
   */
  datatype Env = Env(
    blogExists: nat -> bool,
    fails: Action -> bool,
    metadata: (nat, nat) -> seq<Pair<MetaValue>>,
    simplify: seq<Pair<MetaValue>> -> seq<Pair<MetaValue>>,
    intval: string -> int,
    isTaxonomy: string -> bool,
    terms: (Submission, string) -> seq<Term>,
    menuItems: (nat, nat) -> seq<nat>,
    translate: (string, nat, int, nat) -> nat,
    fastSend: (string, nat, int, nat) -> Submission,
    relatedTypes: Submission -> seq<string>,
    widgetSettings: Submission -> seq<Pair<MetaValue>>,
    targetWidgetSettings: Submission -> seq<Pair<MetaValue>>,
    find: nat -> seq<Submission>,
    checkStatus: Submission -> Submission)

  // ----- the blog context -----

  /** `switchBlogId($blog)`: the current blog is pushed and `blog` becomes current. */
  function Switch(st: State, blog: nat): (r: State)
    ensures r.current == blog && r.stack == st.stack + [st.current]
    ensures r.trace == st.trace + [Effect(st.current, SwitchBlog(blog))]
  {
    State(blog, st.stack + [st.current], st.trace + [Effect(st.current, SwitchBlog(blog))])
  }

  /** `restoreBlogId()`: the last pushed blog becomes current again; with nothing pushed nothing changes. */
  function Restore(st: State): (r: State)
    ensures st.stack != [] ==> r.current == st.stack[|st.stack| - 1] && r.stack == st.stack[..|st.stack| - 1]
    ensures st.stack == [] ==> r.current == st.current && r.stack == []
    ensures r.trace == st.trace + [Effect(st.current, RestoreBlog)]
  {
    var trace := st.trace + [Effect(st.current, RestoreBlog)];
    if st.stack == [] then st.(trace := trace) else State(st.stack[|st.stack| - 1], st.stack[..|st.stack| - 1], trace)
  }

  /** A restore undoes a switch, whatever happened in between without touching the blog context. */
  lemma RestoreUndoesSwitch(st: State, blog: nat, t: seq<Effect>)
    ensures Restore(Switch(st, blog).(trace := t)).current == st.current
    ensures Restore(Switch(st, blog).(trace := t)).stack == st.stack
  {
    var s := Switch(st, blog).(trace := t);
    assert s.stack[..|s.stack| - 1] == st.stack;
  }

  /**
   * The effects of a bracket around `actions`: a switch to `blog` and a
   * restore around them exactly when `blog` is not the current blog.
   */
  function Bracket(current: nat, blog: nat, actions: seq<Action>): seq<Effect> {
    if blog != current then [Effect(current, SwitchBlog(blog))] + Effects(blog, actions) + [Effect(blog, RestoreBlog)]
    else Effects(blog, actions)
  }

  /** The effects of `actions`, all in `blog`. */
  function Effects(blog: nat, actions: seq<Action>): (r: seq<Effect>)
    ensures |r| == |actions| && forall i :: 0 <= i < |actions| ==> r[i] == Effect(blog, actions[i])
  {
    seq(|actions|, i requires 0 <= i < |actions| => Effect(blog, actions[i]))
  }

  function Emit(st: State, a: Action): (r: State)
    ensures r.current == st.current && r.stack == st.stack && r.trace == st.trace + [Effect(st.current, a)]
  {
    st.(trace := st.trace + [Effect(st.current, a)])
  }

  /** Entity reads and writes may throw; the other effects do not. */
  predicate MayThrow(env: Env, a: Action) {
    (a.ReadMetadata? || a.SetMetaTag? || a.SaveEntity?) && env.fails(a)
  }

  /** No action of the list throws. */
  predicate NoneThrows(env: Env, actions: seq<Action>) {
    forall i :: 0 <= i < |actions| ==> !MayThrow(env, actions[i])
  }

  /** The actions in order, up to the first that throws. */
  function RunActions(st: State, actions: seq<Action>, env: Env): (r: Outcome<()>)
    ensures r.st.current == st.current && r.st.stack == st.stack
    ensures r.Done? <==> NoneThrows(env, actions)
    ensures r.Done? ==> r.st.trace == st.trace + Effects(st.current, actions)
    decreases |actions|
  {
    if actions == [] then
      assert st.trace + Effects(st.current, actions) == st.trace;
      Done((), st)
    else if MayThrow(env, actions[0]) then Thrown(ActionFailed(actions[0]), st)
    else
      NoThrowCons(env, actions);
      EffectsCons(st.current, st.trace, actions);
      RunActions(Emit(st, actions[0]), actions[1..], env)
  }

  lemma NoThrowCons(env: Env, actions: seq<Action>)
    requires actions != []
    ensures NoneThrows(env, actions) <==> !MayThrow(env, actions[0]) && NoneThrows(env, actions[1..])
  {
    assert forall i :: 0 < i < |actions| ==> actions[i] == actions[1..][i - 1];
  }

  lemma EffectsCons(blog: nat, trace: seq<Effect>, actions: seq<Action>)
    requires actions != []
    ensures trace + Effects(blog, actions) == (trace + [Effect(blog, actions[0])]) + Effects(blog, actions[1..])
  {
    assert Effects(blog, actions) == [Effect(blog, actions[0])] + Effects(blog, actions[1..]);
  }

  /**
   * The bracket of `saveTargetEntity`, `setMetaForTargetEntity`,
   * `getMetaForOriginalEntity` and `getMetaForTargetEntity`: switch to
   * `blog` only when it is not current, run the actions, and restore only
   * when switched. The restore is not in a `finally`.
   */
  function InBlog(st: State, blog: nat, actions: seq<Action>, env: Env): (r: Outcome<()>)
    ensures r.Done? <==>
      ((blog == st.current || env.blogExists(blog)) && NoneThrows(env, actions))
    ensures r.Done? ==> r.st == st.(trace := st.trace + Bracket(st.current, blog, actions))
    ensures r.Thrown? && blog != st.current && env.blogExists(blog) ==>
      r.st.current == blog && r.st.stack == st.stack + [st.current]
  {
    var switched := blog != st.current;
    if switched && !env.blogExists(blog) then Thrown(BlogNotFound(blog), st)
    else
      var st1 := if switched then Switch(st, blog) else st;
      match RunActions(st1, actions, env)
      case Thrown(e, s) => Thrown(e, s)
      case Done(_, s) =>
        var r := if switched then Restore(s) else s;
        assert switched ==> s.stack[..|s.stack| - 1] == st.stack;
        assert switched ==> r.trace == st.trace + Bracket(st.current, blog, actions);
        Done((), r)
  }

  /** `saveTargetEntity($submission, $entity)`: the entity is written in the target blog. */
  function SaveTargetEntity(st: State, sub: Submission, settings: seq<Pair<MetaValue>>, env: Env): (r: Outcome<()>)
    ensures r.Done? ==> r.st == st.(trace := st.trace + Bracket(st.current, sub.targetBlogId, [SaveEntity(sub.contentType, sub.targetId, settings)]))
  {
    InBlog(st, sub.targetBlogId, [SaveEntity(sub.contentType, sub.targetId, settings)], env)
  }

  /** One `setMetaTag` per entry, in order. */
  function MetaActions(contentId: nat, meta: seq<Pair<MetaValue>>): (r: seq<Action>)
    ensures |r| == |meta| && forall i :: 0 <= i < |meta| ==> r[i] == SetMetaTag(contentId, meta[i].key, meta[i].val)
  {
    seq(|meta|, i requires 0 <= i < |meta| => SetMetaTag(contentId, meta[i].key, meta[i].val))
  }

  /** `setMetaForTargetEntity($submission, $entity, $meta)`: every entry set on the target entity, in the target blog. */
  function SetMetaForTargetEntity(st: State, sub: Submission, meta: seq<Pair<MetaValue>>, env: Env): (r: Outcome<()>)
    ensures r.Done? ==> r.st == st.(trace := st.trace + Bracket(st.current, sub.targetBlogId, MetaActions(sub.targetId, meta)))
  {
    InBlog(st, sub.targetBlogId, MetaActions(sub.targetId, meta), env)
  }

  /** `getMetaForOriginalEntity($submission)`: the source entity's meta, read in the source blog whatever blog is current. */
  function GetMetaForOriginalEntity(st: State, sub: Submission, env: Env): (r: Outcome<seq<Pair<MetaValue>>>)
    ensures r.Done? ==> r.value == env.metadata(sub.sourceId, sub.sourceBlogId)
    ensures r.Done? ==> r.st == st.(trace := st.trace + Bracket(st.current, sub.sourceBlogId, [ReadMetadata(sub.sourceId)]))
  {
    match InBlog(st, sub.sourceBlogId, [ReadMetadata(sub.sourceId)], env)
    case Thrown(e, s) => Thrown(e, s)
    case Done(_, s) => Done(env.metadata(sub.sourceId, sub.sourceBlogId), s)
  }

  /** `getMetaForTargetEntity($submission)`: the target entity's meta, read in the target blog. */
  function GetMetaForTargetEntity(st: State, sub: Submission, env: Env): (r: Outcome<seq<Pair<MetaValue>>>)
    ensures r.Done? ==> r.value == env.metadata(sub.targetId, sub.targetBlogId)
    ensures r.Done? ==> r.st == st.(trace := st.trace + Bracket(st.current, sub.targetBlogId, [ReadMetadata(sub.targetId)]))
  {
    match InBlog(st, sub.targetBlogId, [ReadMetadata(sub.targetId)], env)
    case Thrown(e, s) => Thrown(e, s)
    case Done(_, s) => Done(env.metadata(sub.targetId, sub.targetBlogId), s)
  }

  // ----- the accumulator of related ids -----

  /** The accumulator `prepareRelatedSubmissions` starts from. */
  const InitialAccumulator: seq<Pair<seq<nat>>> := [Pair(Category, []), Pair(PostTag, [])]

  /** `$accumulator[$k][] = $x`. */
  function AppendUnder(acc: seq<Pair<seq<nat>>>, k: string, x: nat): (r: seq<Pair<seq<nat>>>)
    ensures Lookup(r, k) == Some(Lookup(acc, k).GetOr([]) + [x])
    ensures forall k' :: k' != k ==> Lookup(r, k') == Lookup(acc, k')
    ensures IsPrefix(Keys(acc), Keys(r))
  {
    var r := Assign(acc, k, Lookup(acc, k).GetOr([]) + [x]);
    forall k' | k' != k ensures Lookup(r, k') == Lookup(acc, k') {
      AssignOther(acc, k, Lookup(acc, k).GetOr([]) + [x], k');
    }
    KeysOfConcat(acc, [Pair(k, Lookup(acc, k).GetOr([]) + [x])]);
    r
  }

  predicate IsPrefix<T(==)>(a: seq<T>, b: seq<T>) {
    |a| <= |b| && b[..|a|] == a
  }

  lemma IsPrefixTrans<T>(a: seq<T>, b: seq<T>, c: seq<T>)
    requires IsPrefix(a, b) && IsPrefix(b, c)
    ensures IsPrefix(a, c)
  {
    assert c[..|b|][..|a|] == c[..|a|];
  }

  /** Appending the head of `xs`, then its tail, appends `xs`. */
  lemma AppendHead(p: seq<nat>, xs: seq<nat>)
    requires xs != []
    ensures (p + [xs[0]]) + xs[1..] == p + xs
    ensures |xs| == 1 ==> p + [xs[0]] == p + xs
  {
    assert xs == [xs[0]] + xs[1..];
  }

  /** `$accumulator[$k][] = $x` for every `x`, in order. */
  function AppendEach(acc: seq<Pair<seq<nat>>>, k: string, xs: seq<nat>): (r: seq<Pair<seq<nat>>>)
    ensures Lookup(r, k) == if xs == [] then Lookup(acc, k) else Some(Lookup(acc, k).GetOr([]) + xs)
    ensures forall k' :: k' != k ==> Lookup(r, k') == Lookup(acc, k')
    ensures IsPrefix(Keys(acc), Keys(r))
    decreases |xs|
  {
    if xs == [] then acc
    else
      var acc' := AppendUnder(acc, k, xs[0]);
      var r := AppendEach(acc', k, xs[1..]);
      AppendHead(Lookup(acc, k).GetOr([]), xs);
      IsPrefixTrans(Keys(acc), Keys(acc'), Keys(r));
      r
  }

  // ----- the related-content steps -----

  /** The target ids of the terms, in term order. */
  function TranslatedTerms(sub: Submission, terms: seq<Term>, env: Env): (r: seq<nat>)
    ensures |r| == |terms|
    ensures forall i :: 0 <= i < |terms| ==>
      r[i] == env.translate(terms[i].taxonomy, sub.sourceBlogId, terms[i].termId, sub.targetBlogId)
  {
    seq<nat>(|terms|, i requires 0 <= i < |terms| => env.translate(terms[i].taxonomy, sub.sourceBlogId, terms[i].termId, sub.targetBlogId))
  }

  /** Terms are resolved for a supported taxonomy of a submission that is not a widget. */
  predicate ResolvesTerms(sub: Submission, contentType: string, env: Env) {
    env.isTaxonomy(contentType) && sub.contentType != Widget
  }

  /**
   * `processRelatedTerm($submission, $contentType, $accumulator)`: one
   * translated id per term, in term order, appended under the content type;
   * nothing else changes.
   */
  function ProcessRelatedTerm(acc: seq<Pair<seq<nat>>>, sub: Submission, contentType: string, env: Env): (r: seq<Pair<seq<nat>>>)
    ensures !ResolvesTerms(sub, contentType, env) || env.terms(sub, contentType) == [] ==> r == acc
    ensures ResolvesTerms(sub, contentType, env) && env.terms(sub, contentType) != [] ==>
      Lookup(r, contentType) == Some(Lookup(acc, contentType).GetOr([]) + TranslatedTerms(sub, env.terms(sub, contentType), env))
    ensures forall k :: k != contentType ==> Lookup(r, k) == Lookup(acc, k)
    ensures IsPrefix(Keys(acc), Keys(r))
  {
    if ResolvesTerms(sub, contentType, env) then
      var terms := env.terms(sub, contentType);
      if |terms| > 0 then AppendEach(acc, contentType, TranslatedTerms(sub, terms, env)) else acc
    else acc
  }

  /** `(string)` of a meta value that may be missing. */
  function MetaString(v: Option<MetaValue>): string {
    match v
    case Some(MStr(s)) => s
    case _ => ""
  }

  /** `(int)` of a meta value that may be missing; a list casts to 0 when empty and 1 otherwise. */
  function MetaInt(v: Option<MetaValue>, env: Env): int {
    match v
    case None => 0
    case Some(MStr(s)) => env.intval(s)
    case Some(MInt(i)) => i
    case Some(MArr(items)) => if items == [] then 0 else 1
  }

  /** The menu item links a term or a post. */
  predicate LinksContent(meta: seq<Pair<MetaValue>>) {
    Lookup(meta, MenuItemType) == Some(MStr("taxonomy")) || Lookup(meta, MenuItemType) == Some(MStr("post_type"))
  }

  /**
   * The meta rewrite of `processRelatedMenu`: the linked object's id is
   * replaced by its translation when the item links a term or a post;
   * every other entry keeps its value.
   */
  function RewriteMenuItemMeta(meta: seq<Pair<MetaValue>>, sub: Submission, env: Env): (r: seq<Pair<MetaValue>>)
    ensures !LinksContent(meta) ==> r == meta
    ensures LinksContent(meta) ==> Lookup(r, MenuItemObjectId) == Some(MInt(env.translate(
      MetaString(Lookup(meta, MenuItemObject)), sub.sourceBlogId, MetaInt(Lookup(meta, MenuItemObjectId), env), sub.targetBlogId)))
    ensures forall k :: k != MenuItemObjectId ==> Lookup(r, k) == Lookup(meta, k)
  {
    if LinksContent(meta) then
      var id := env.translate(MetaString(Lookup(meta, MenuItemObject)), sub.sourceBlogId,
        MetaInt(Lookup(meta, MenuItemObjectId), env), sub.targetBlogId);
      var r := Assign(meta, MenuItemObjectId, MInt(id));
      forall k | k != MenuItemObjectId ensures Lookup(r, k) == Lookup(meta, k) {
        AssignOther(meta, MenuItemObjectId, MInt(id), k);
      }
      r
    else meta
  }

  /** The submission `fastSendForTranslation` returns for menu item `id`. */
  function MenuItemSubmission(sub: Submission, id: nat, env: Env): Submission {
    env.fastSend(NavMenuItem, sub.sourceBlogId, id, sub.targetBlogId)
  }

  /** The target ids of the menu items' submissions, in item order. */
  function MenuTargetIds(sub: Submission, ids: seq<nat>, env: Env): (r: seq<nat>)
    ensures |r| == |ids|
  {
    seq<nat>(|ids|, j requires 0 <= j < |ids| => MenuItemSubmission(sub, ids[j], env).targetId)
  }

  /**
   * The effects of one menu item: its source meta read in the item's
   * source blog, then every entry of the rewritten meta set on the item's
   * target in its target blog.
   */
  function MenuItemEffect(current: nat, sub: Submission, id: nat, env: Env): seq<Effect> {
    var item := MenuItemSubmission(sub, id, env);
    var meta := RewriteMenuItemMeta(env.simplify(env.metadata(item.sourceId, item.sourceBlogId)), sub, env);
    Bracket(current, item.sourceBlogId, [ReadMetadata(item.sourceId)]) +
    Bracket(current, item.targetBlogId, MetaActions(item.targetId, meta))
  }

  /** The effects of the menu items, one item after the other. */
  function MenuItemEffects(current: nat, sub: Submission, ids: seq<nat>, env: Env): seq<Effect>
    decreases |ids|
  {
    if ids == [] then [] else MenuItemEffect(current, sub, ids[0], env) + MenuItemEffects(current, sub, ids[1..], env)
  }

  /** The effects from item `i` on are those of item `i` followed by those after it. */
  lemma MenuEffectsAt(current: nat, sub: Submission, items: seq<nat>, i: nat, env: Env)
    requires i < |items|
    ensures MenuItemEffects(current, sub, items[i..], env)
         == MenuItemEffect(current, sub, items[i], env) + MenuItemEffects(current, sub, items[i + 1..], env)
  {
    assert items[i..][1..] == items[i + 1..];
    assert items[i..][0] == items[i];
  }

  /** The target ids from item `i` on are that of item `i` followed by those after it. */
  lemma MenuIdsAt(sub: Submission, items: seq<nat>, i: nat, env: Env)
    requires i < |items|
    ensures MenuTargetIds(sub, items[i..], env)
         == [MenuItemSubmission(sub, items[i], env).targetId] + MenuTargetIds(sub, items[i + 1..], env)
  {
    var all := MenuTargetIds(sub, items[i..], env);
    var rest := MenuTargetIds(sub, items[i + 1..], env);
    assert forall j :: 0 <= j < |rest| ==> all[j + 1] == rest[j];
    assert all[1..] == rest;
  }

  /**
   * The `foreach` of `processRelatedMenu` from menu item `i` on: each item
   * is sent for translation, its source meta read, rewritten and set on
   * its target, and its target id appended under `nav_menu`.
   */
  function MenuItemsFrom(st: State, acc: seq<Pair<seq<nat>>>, sub: Submission, items: seq<nat>, i: nat, env: Env): (r: Outcome<seq<Pair<seq<nat>>>>)
    requires i <= |items|
    ensures r.Done? ==> r.st.current == st.current && r.st.stack == st.stack
    ensures r.Done? ==> r.st.trace == st.trace + MenuItemEffects(st.current, sub, items[i..], env)
    ensures r.Done? ==> Lookup(r.value, NavMenu) == MenuAppended(acc, sub, items[i..], env)
    ensures r.Done? ==> forall k :: k != NavMenu ==> Lookup(r.value, k) == Lookup(acc, k)
    ensures r.Done? ==> IsPrefix(Keys(acc), Keys(r.value))
    ensures r.Done? ==> r.value == AppendEach(acc, NavMenu, MenuTargetIds(sub, items[i..], env))
    decreases |items| - i
  {
    if i == |items| then
      assert st.trace + MenuItemEffects(st.current, sub, items[i..], env) == st.trace;
      assert MenuTargetIds(sub, items[i..], env) == [];
      Done(acc, st)
    else
      var item := MenuItemSubmission(sub, items[i], env);
      match GetMetaForOriginalEntity(st, item, env)
      case Thrown(e, s) => Thrown(e, s)
      case Done(meta, s1) =>
        match SetMetaForTargetEntity(s1, item, RewriteMenuItemMeta(env.simplify(meta), sub, env), env)
        case Thrown(e, s) => Thrown(e, s)
        case Done(_, s2) =>
          var acc' := AppendUnder(acc, NavMenu, item.targetId);
          var r := MenuItemsFrom(s2, acc', sub, items, i + 1, env);
          if r.Done? then
            MenuEffectsAt(st.current, sub, items, i, env);
            TraceStep(st.trace, s1.trace, s2.trace, r.st.trace,
              Bracket(st.current, item.sourceBlogId, [ReadMetadata(item.sourceId)]),
              Bracket(st.current, item.targetBlogId, MetaActions(item.targetId, RewriteMenuItemMeta(env.simplify(meta), sub, env))),
              MenuItemEffects(st.current, sub, items[i + 1..], env));
            MenuAppendedStep(acc, acc', r.value, sub, items, i, env);
            MenuAccumulatorStep(acc, acc', r.value, sub, items, i, env);
            IsPrefixTrans(Keys(acc), Keys(acc'), Keys(r.value));
            r
          else r
  }

  /** What `nav_menu` holds after the ids of `ids` are appended to it. */
  function MenuAppended(acc: seq<Pair<seq<nat>>>, sub: Submission, ids: seq<nat>, env: Env): Option<seq<nat>> {
    if ids == [] then Lookup(acc, NavMenu) else Some(Lookup(acc, NavMenu).GetOr([]) + MenuTargetIds(sub, ids, env))
  }

  /** Three appended segments, read as one. */
  lemma TraceStep(t0: seq<Effect>, t1: seq<Effect>, t2: seq<Effect>, t3: seq<Effect>, a: seq<Effect>, b: seq<Effect>, c: seq<Effect>)
    requires t1 == t0 + a && t2 == t1 + b && t3 == t2 + c
    ensures t3 == t0 + ((a + b) + c)
  {
  }

  /** Appending item `i`'s target id, then those after it, appends the ids from item `i` on. */
  lemma MenuAppendedStep(acc: seq<Pair<seq<nat>>>, acc': seq<Pair<seq<nat>>>, rv: seq<Pair<seq<nat>>>,
                         sub: Submission, items: seq<nat>, i: nat, env: Env)
    requires i < |items|
    requires acc' == AppendUnder(acc, NavMenu, MenuItemSubmission(sub, items[i], env).targetId)
    requires Lookup(rv, NavMenu) == MenuAppended(acc', sub, items[i + 1..], env)
    requires forall k :: k != NavMenu ==> Lookup(rv, k) == Lookup(acc', k)
    ensures Lookup(rv, NavMenu) == MenuAppended(acc, sub, items[i..], env)
    ensures forall k :: k != NavMenu ==> Lookup(rv, k) == Lookup(acc, k)
  {
    var before := Lookup(acc, NavMenu).GetOr([]);
    var t := MenuItemSubmission(sub, items[i], env).targetId;
    var rest := MenuTargetIds(sub, items[i + 1..], env);
    assert Lookup(acc', NavMenu) == Some(before + [t]);
    MenuIdsAt(sub, items, i, env);
    assert MenuAppended(acc, sub, items[i..], env) == Some(before + ([t] + rest));
    if i + 1 == |items| {
      assert rest == [];
      assert Lookup(rv, NavMenu) == Some(before + [t]);
      assert before + [t] == before + ([t] + rest);
    } else {
      assert Lookup(rv, NavMenu) == Some((before + [t]) + rest);
      assert (before + [t]) + rest == before + ([t] + rest);
    }
  }

  /** Appending item `i`'s target id, then those after it, is appending the ids from item `i` on. */
  lemma MenuAccumulatorStep(acc: seq<Pair<seq<nat>>>, acc': seq<Pair<seq<nat>>>, rv: seq<Pair<seq<nat>>>,
                            sub: Submission, items: seq<nat>, i: nat, env: Env)
    requires i < |items|
    requires acc' == AppendUnder(acc, NavMenu, MenuItemSubmission(sub, items[i], env).targetId)
    requires rv == AppendEach(acc', NavMenu, MenuTargetIds(sub, items[i + 1..], env))
    ensures rv == AppendEach(acc, NavMenu, MenuTargetIds(sub, items[i..], env))
  {
    var ids := MenuTargetIds(sub, items[i..], env);
    MenuIdsAt(sub, items, i, env);
    assert ids[0] == MenuItemSubmission(sub, items[i], env).targetId;
    assert ids[1..] == MenuTargetIds(sub, items[i + 1..], env);
  }

  /** `processRelatedMenu($submission, $contentType, $accumulator)`: only for the `nav_menu_item` type. */
  function ProcessRelatedMenu(st: State, acc: seq<Pair<seq<nat>>>, sub: Submission, contentType: string, env: Env): (r: Outcome<seq<Pair<seq<nat>>>>)
    ensures contentType != NavMenuItem ==> r == Done(acc, st)
    ensures r.Done? ==> r.st.current == st.current && r.st.stack == st.stack
    ensures contentType == NavMenuItem && r.Done? ==>
      r.st.trace == st.trace + MenuItemEffects(st.current, sub, env.menuItems(sub.sourceId, sub.sourceBlogId), env) &&
      Lookup(r.value, NavMenu) == MenuAppended(acc, sub, env.menuItems(sub.sourceId, sub.sourceBlogId), env)
    ensures r.Done? ==> forall k :: k != NavMenu ==> Lookup(r.value, k) == Lookup(acc, k)
    ensures r.Done? ==> IsPrefix(Keys(acc), Keys(r.value))
    ensures contentType == NavMenuItem && r.Done? ==>
      r.value == AppendEach(acc, NavMenu, MenuTargetIds(sub, env.menuItems(sub.sourceId, sub.sourceBlogId), env))
  {
    if contentType == NavMenuItem then
      var items := env.menuItems(sub.sourceId, sub.sourceBlogId);
      assert items[0..] == items;
      MenuItemsFrom(st, acc, sub, items, 0, env)
    else Done(acc, st)
  }

  /** A widget's settings with only `nav_menu` replaced. */
  function WithNavMenu(settings: seq<Pair<MetaValue>>, menuId: nat): (r: seq<Pair<MetaValue>>)
    ensures Lookup(r, NavMenuSetting) == Some(MInt(menuId))
    ensures forall k :: k != NavMenuSetting ==> Lookup(r, k) == Lookup(settings, k)
  {
    var r := Assign(settings, NavMenuSetting, MInt(menuId));
    forall k | k != NavMenuSetting ensures Lookup(r, k) == Lookup(settings, k) {
      AssignOther(settings, NavMenuSetting, MInt(menuId), k);
    }
    r
  }

  /** The menu a widget submission shows, `(int) $settings['nav_menu']`. */
  function WidgetMenu(sub: Submission, env: Env): int {
    MetaInt(Lookup(env.widgetSettings(sub), NavMenuSetting), env)
  }

  /** The widget rewrite applies: a `nav_menu` type on a widget submission whose menu is set. */
  predicate RewritesWidget(sub: Submission, contentType: string, env: Env) {
    contentType == NavMenu && sub.contentType == Widget && WidgetMenu(sub, env) != 0
  }

  /**
   * `processMenuRelatedToWidget($submission, $contentType)`: the widget's
   * menu is translated and the target widget saved with only its
   * `nav_menu` setting replaced; otherwise nothing happens.
   */
  function ProcessMenuRelatedToWidget(st: State, sub: Submission, contentType: string, env: Env): (r: Outcome<()>)
    ensures !RewritesWidget(sub, contentType, env) ==> r == Done((), st)
    ensures RewritesWidget(sub, contentType, env) && r.Done? ==>
      var menu := env.translate(NavMenu, sub.sourceBlogId, WidgetMenu(sub, env), sub.targetBlogId);
      r.st == st.(trace := st.trace + Bracket(st.current, sub.targetBlogId,
        [SaveEntity(sub.contentType, sub.targetId, WithNavMenu(env.targetWidgetSettings(sub), menu))]))
  {
    if RewritesWidget(sub, contentType, env) then
      var menu := env.translate(NavMenu, sub.sourceBlogId, WidgetMenu(sub, env), sub.targetBlogId);
      SaveTargetEntity(st, sub, WithNavMenu(env.targetWidgetSettings(sub), menu), env)
    else Done((), st)
  }

  /** `$originalMetadata['_thumbnail_id']` after the collapse of a list to the int of its first element. */
  function ThumbnailId(v: MetaValue, env: Env): (r: MetaValue)
    ensures !v.MArr? ==> r == v
    ensures v.MArr? ==> r == MInt(if v.items == [] then 0 else env.intval(v.items[0]))
  {
    match v
    case MArr(items) => MInt(if items == [] then 0 else env.intval(items[0]))
    case _ => v
  }

  /** The attachment submission of a source meta that has a thumbnail. */
  function AttachmentOf(sub: Submission, meta: seq<Pair<MetaValue>>, env: Env): Submission
    requires HasKey(meta, ThumbnailKey)
  {
    env.fastSend(Attachment, sub.sourceBlogId, MetaInt(Some(ThumbnailId(Get(meta, ThumbnailKey), env)), env), sub.targetBlogId)
  }

  /**
   * Reference: what `processFeaturedImage` adds to the trace when it
   * completes, the source meta read, then, for a thumbnail, the attachment
   * download and the thumbnail set on the target.
   */
  function FeaturedImageEffects(current: nat, sub: Submission, env: Env): seq<Effect> {
    var meta := env.metadata(sub.sourceId, sub.sourceBlogId);
    Bracket(current, sub.sourceBlogId, [ReadMetadata(sub.sourceId)]) +
      if !HasKey(meta, ThumbnailKey) then []
      else
        var att := AttachmentOf(sub, meta, env);
        [Effect(current, DownloadTranslation(att.id))] +
          Bracket(current, sub.targetBlogId, [SetMetaTag(sub.targetId, ThumbnailKey, MInt(att.targetId))])
  }

  /**
   * `processFeaturedImage($submission)`: when the source has a thumbnail,
   * its attachment is sent, downloaded, and only then set as the target's
   * thumbnail; otherwise only the source meta is read.
   */
  function ProcessFeaturedImage(st: State, sub: Submission, env: Env): (r: Outcome<()>)
    ensures r.Done? ==> r.st.current == st.current && r.st.stack == st.stack
    ensures r.Done? ==>
      var read := st.trace + Bracket(st.current, sub.sourceBlogId, [ReadMetadata(sub.sourceId)]);
      var meta := env.metadata(sub.sourceId, sub.sourceBlogId);
      if !HasKey(meta, ThumbnailKey) then r.st.trace == read
      else
        var att := AttachmentOf(sub, meta, env);
        r.st.trace == read + [Effect(st.current, DownloadTranslation(att.id))] +
          Bracket(st.current, sub.targetBlogId, [SetMetaTag(sub.targetId, ThumbnailKey, MInt(att.targetId))])
    ensures r.Done? ==> r.st.trace == st.trace + FeaturedImageEffects(st.current, sub, env)
  {
    match GetMetaForOriginalEntity(st, sub, env)
    case Thrown(e, s) => Thrown(e, s)
    case Done(meta, s1) =>
      var read := Bracket(st.current, sub.sourceBlogId, [ReadMetadata(sub.sourceId)]);
      if !HasKey(meta, ThumbnailKey) then
        assert FeaturedImageEffects(st.current, sub, env) == read + [];
        Done((), s1)
      else
        var att := AttachmentOf(sub, meta, env);
        var s2 := Emit(s1, DownloadTranslation(att.id));
        var thumb := [Pair(ThumbnailKey, MInt(att.targetId))];
        var setThumb := Bracket(st.current, sub.targetBlogId, [SetMetaTag(sub.targetId, ThumbnailKey, MInt(att.targetId))]);
        assert MetaActions(sub.targetId, thumb) == [SetMetaTag(sub.targetId, ThumbnailKey, MInt(att.targetId))];
        assert FeaturedImageEffects(st.current, sub, env) == read + ([Effect(st.current, DownloadTranslation(att.id))] + setThumb);
        var r := SetMetaForTargetEntity(s2, sub, thumb, env);
        if r.Done? then
          TraceStep(st.trace, s1.trace, s2.trace, r.st.trace, read, [Effect(st.current, DownloadTranslation(att.id))], setThumb);
          r
        else r
  }

  // ----- prepareRelatedSubmissions -----

  /** Reference: what `processMenuRelatedToWidget` adds to the trace when it completes. */
  function WidgetEffects(current: nat, sub: Submission, t: string, env: Env): seq<Effect> {
    if RewritesWidget(sub, t, env) then
      var menu := env.translate(NavMenu, sub.sourceBlogId, WidgetMenu(sub, env), sub.targetBlogId);
      Bracket(current, sub.targetBlogId, [SaveEntity(sub.contentType, sub.targetId, WithNavMenu(env.targetWidgetSettings(sub), menu))])
    else []
  }

  /** Reference: the menu items of a `nav_menu_item` type. */
  function MenuEffects(current: nat, sub: Submission, t: string, env: Env): seq<Effect> {
    if t == NavMenuItem then MenuItemEffects(current, sub, env.menuItems(sub.sourceId, sub.sourceBlogId), env) else []
  }

  /**
   * Reference: the trace of one pass of the related-types loop: menu
   * items, widget menu, and one featured-image segment. Terms only touch
   * the accumulator.
   */
  function TypeEffects(current: nat, sub: Submission, t: string, env: Env): seq<Effect> {
    MenuEffects(current, sub, t, env) + WidgetEffects(current, sub, t, env) + FeaturedImageEffects(current, sub, env)
  }

  /** Reference: the trace of the related-types loop over `types`. */
  function RelatedEffects(current: nat, sub: Submission, types: seq<string>, env: Env): seq<Effect>
    decreases |types|
  {
    if types == [] then [] else TypeEffects(current, sub, types[0], env) + RelatedEffects(current, sub, types[1..], env)
  }

  /** `n` featured-image segments in a row. */
  function RepeatFeatured(current: nat, sub: Submission, n: nat, env: Env): seq<Effect> {
    if n == 0 then [] else FeaturedImageEffects(current, sub, env) + RepeatFeatured(current, sub, n - 1, env)
  }

  /**
   * The featured image is processed once per related type: for a
   * submission that is not a widget and types that are not menu items,
   * the loop's trace is exactly one featured-image segment per type.
   */
  lemma {:induction false} OneFeaturedImagePerType(current: nat, sub: Submission, types: seq<string>, env: Env)
    requires sub.contentType != Widget
    requires forall j :: 0 <= j < |types| ==> types[j] != NavMenuItem
    ensures RelatedEffects(current, sub, types, env) == RepeatFeatured(current, sub, |types|, env)
    decreases |types|
  {
    if types != [] {
      assert MenuEffects(current, sub, types[0], env) == [];
      assert WidgetEffects(current, sub, types[0], env) == [];
      assert TypeEffects(current, sub, types[0], env) == FeaturedImageEffects(current, sub, env);
      OneFeaturedImagePerType(current, sub, types[1..], env);
    }
  }

  /**
   * The `foreach ($relatedContentTypes as $contentType)` from type `i` on:
   * terms, menu items, the widget menu, and the featured image, which is
   * processed once per related type.
   */
  function RelatedFrom(st: State, acc: seq<Pair<seq<nat>>>, sub: Submission, types: seq<string>, i: nat, env: Env): (r: Outcome<seq<Pair<seq<nat>>>>)
    requires i <= |types|
    ensures r.Done? ==> r.st.current == st.current && r.st.stack == st.stack
    ensures r.Done? ==> IsPrefix(Keys(acc), Keys(r.value))
    ensures r.Done? ==> r.st.trace == st.trace + RelatedEffects(st.current, sub, types[i..], env)
    ensures r.Done? ==> r.value == RelatedAccumulator(acc, sub, types[i..], env)
    decreases |types| - i
  {
    if i == |types| then
      assert st.trace + RelatedEffects(st.current, sub, types[i..], env) == st.trace;
      assert types[i..] == [];
      Done(acc, st)
    else
      var t := types[i];
      var acc1 := ProcessRelatedTerm(acc, sub, t, env);
      match ProcessRelatedMenu(st, acc1, sub, t, env)
      case Thrown(e, s) => Thrown(e, s)
      case Done(acc2, s2) =>
        match ProcessMenuRelatedToWidget(s2, sub, t, env)
        case Thrown(e, s) => Thrown(e, s)
        case Done(_, s3) =>
          match ProcessFeaturedImage(s3, sub, env)
          case Thrown(e, s) => Thrown(e, s)
          case Done(_, s4) =>
            var r := RelatedFrom(s4, acc2, sub, types, i + 1, env);
            if r.Done? then
              IsPrefixTrans(Keys(acc), Keys(acc1), Keys(acc2));
              IsPrefixTrans(Keys(acc), Keys(acc2), Keys(r.value));
              RelatedEffectsAt(st.current, sub, types, i, env);
              TypeTraceStep(st, s2, s3, s4, r.st.trace, sub, t, env, RelatedEffects(st.current, sub, types[i + 1..], env));
              RelatedAccumulatorAt(acc, sub, types, i, env);
              r
            else r
  }

  /**
   * Reference: the accumulator after one related type: its translated
   * terms appended under the type, then, for `nav_menu_item`, the target
   * ids of the menu items appended under `nav_menu`.
   */
  function TypeAccumulator(acc: seq<Pair<seq<nat>>>, sub: Submission, t: string, env: Env): seq<Pair<seq<nat>>> {
    var a1 := ProcessRelatedTerm(acc, sub, t, env);
    if t == NavMenuItem then AppendEach(a1, NavMenu, MenuTargetIds(sub, env.menuItems(sub.sourceId, sub.sourceBlogId), env)) else a1
  }

  /** Reference: the accumulator after the related types, one after the other. */
  function RelatedAccumulator(acc: seq<Pair<seq<nat>>>, sub: Submission, types: seq<string>, env: Env): seq<Pair<seq<nat>>>
    decreases |types|
  {
    if types == [] then acc else RelatedAccumulator(TypeAccumulator(acc, sub, types[0], env), sub, types[1..], env)
  }

  lemma RelatedAccumulatorAt(acc: seq<Pair<seq<nat>>>, sub: Submission, types: seq<string>, i: nat, env: Env)
    requires i < |types|
    ensures RelatedAccumulator(acc, sub, types[i..], env)
         == RelatedAccumulator(TypeAccumulator(acc, sub, types[i], env), sub, types[i + 1..], env)
  {
    assert types[i..][1..] == types[i + 1..];
    assert types[i..][0] == types[i];
  }

  /** `xs` appended to a list that may be missing; nothing changes when `xs` is empty. */
  function Extend(o: Option<seq<nat>>, xs: seq<nat>): Option<seq<nat>> {
    if xs == [] then o else Some(o.GetOr([]) + xs)
  }

  lemma ExtendTwice(o: Option<seq<nat>>, a: seq<nat>, b: seq<nat>)
    ensures Extend(Extend(o, a), b) == Extend(o, a + b)
  {
    if a == [] {
      assert a + b == b;
    } else if b != [] {
      assert o.GetOr([]) + a + b == o.GetOr([]) + (a + b);
    } else {
      assert a + b == a;
    }
  }

  /**
   * The ids one related type contributes under key `k`: its translated
   * terms when `k` is that type and its terms are resolved, and the menu
   * items' target ids when the type is `nav_menu_item` and `k` is
   * `nav_menu`.
   */
  function TypeIds(sub: Submission, t: string, k: string, env: Env): seq<nat> {
    (if t == k && ResolvesTerms(sub, t, env) then TranslatedTerms(sub, env.terms(sub, t), env) else []) +
    (if t == NavMenuItem && k == NavMenu then MenuTargetIds(sub, env.menuItems(sub.sourceId, sub.sourceBlogId), env) else [])
  }

  /** The ids the related types contribute under key `k`, in type order. */
  function IdsUnder(sub: Submission, types: seq<string>, k: string, env: Env): seq<nat>
    decreases |types|
  {
    if types == [] then [] else TypeIds(sub, types[0], k, env) + IdsUnder(sub, types[1..], k, env)
  }

  lemma TypeAccumulatorLookup(acc: seq<Pair<seq<nat>>>, sub: Submission, t: string, k: string, env: Env)
    ensures Lookup(TypeAccumulator(acc, sub, t, env), k) == Extend(Lookup(acc, k), TypeIds(sub, t, k, env))
  {
    var terms := if t == k && ResolvesTerms(sub, t, env) then TranslatedTerms(sub, env.terms(sub, t), env) else [];
    var menu := if t == NavMenuItem && k == NavMenu then MenuTargetIds(sub, env.menuItems(sub.sourceId, sub.sourceBlogId), env) else [];
    var a1 := ProcessRelatedTerm(acc, sub, t, env);
    assert Lookup(a1, k) == Extend(Lookup(acc, k), terms);
    assert Lookup(TypeAccumulator(acc, sub, t, env), k) == Extend(Lookup(a1, k), menu);
    ExtendTwice(Lookup(acc, k), terms, menu);
  }

  /**
   * Under every key, the accumulator the related types build holds its
   * old list followed by the ids every type contributes to that key, in
   * type order; a key no type contributes to is unchanged.
   */
  lemma {:induction false} CollectedIds(acc: seq<Pair<seq<nat>>>, sub: Submission, types: seq<string>, k: string, env: Env)
    ensures Lookup(RelatedAccumulator(acc, sub, types, env), k) == Extend(Lookup(acc, k), IdsUnder(sub, types, k, env))
    decreases |types|
  {
    if types == [] {
    } else {
      var a1 := TypeAccumulator(acc, sub, types[0], env);
      TypeAccumulatorLookup(acc, sub, types[0], k, env);
      CollectedIds(a1, sub, types[1..], k, env);
      ExtendTwice(Lookup(acc, k), TypeIds(sub, types[0], k, env), IdsUnder(sub, types[1..], k, env));
    }
  }

  /** The loop's trace from type `i` on, split at type `i`. */
  lemma RelatedEffectsAt(current: nat, sub: Submission, types: seq<string>, i: nat, env: Env)
    requires i < |types|
    ensures RelatedEffects(current, sub, types[i..], env)
         == TypeEffects(current, sub, types[i], env) + RelatedEffects(current, sub, types[i + 1..], env)
  {
    assert types[i..][1..] == types[i + 1..];
  }

  /** The segments of one pass, followed by the rest, read as one. */
  lemma TypeTraceStep(st: State, s2: State, s3: State, s4: State, t5: seq<Effect>, sub: Submission, t: string, env: Env, rest: seq<Effect>)
    requires s2.trace == st.trace + MenuEffects(st.current, sub, t, env)
    requires s3.trace == s2.trace + WidgetEffects(st.current, sub, t, env)
    requires s4.trace == s3.trace + FeaturedImageEffects(st.current, sub, env)
    requires t5 == s4.trace + rest
    ensures t5 == st.trace + (TypeEffects(st.current, sub, t, env) + rest)
  {
    TraceStep4(st.trace, s2.trace, s3.trace, s4.trace, t5, MenuEffects(st.current, sub, t, env),
      WidgetEffects(st.current, sub, t, env), FeaturedImageEffects(st.current, sub, env), rest);
  }

  /** Two appended segments, read as one. */
  lemma TraceStep2(t0: seq<Effect>, t1: seq<Effect>, t2: seq<Effect>, a: seq<Effect>, b: seq<Effect>)
    requires t1 == t0 + a && t2 == t1 + b
    ensures t2 == t0 + a + b
  {
  }

  /** Four appended segments, read as one. */
  lemma TraceStep4(t0: seq<Effect>, t1: seq<Effect>, t2: seq<Effect>, t3: seq<Effect>, t4: seq<Effect>,
                   a: seq<Effect>, b: seq<Effect>, c: seq<Effect>, d: seq<Effect>)
    requires t1 == t0 + a && t2 == t1 + b && t3 == t2 + c && t4 == t3 + d
    ensures t4 == t0 + (((a + b) + c) + d)
  {
    TraceStep(t0, t1, t2, t3, a, b, c);
  }

  /** One `wp_set_post_terms` per accumulator entry, in order. */
  function TermActions(postId: nat, acc: seq<Pair<seq<nat>>>): (r: seq<Action>)
    ensures |r| == |acc| && forall i :: 0 <= i < |acc| ==> r[i] == SetPostTerms(postId, acc[i].val, acc[i].key)
  {
    seq(|acc|, i requires 0 <= i < |acc| => SetPostTerms(postId, acc[i].val, acc[i].key))
  }

  /**
   * The final application of `prepareRelatedSubmissions`: a submission
   * that is not a menu gets the terms of every accumulator entry, set in
   * the target blog (switched to unconditionally); a menu only gets its
   * translated items assigned.
   */
  function ApplyRelated(st: State, acc: seq<Pair<seq<nat>>>, sub: Submission, env: Env): (r: Outcome<()>)
    ensures sub.contentType == NavMenu ==>
      r == Done((), Emit(st, AssignMenuItems(sub.targetId, sub.targetBlogId, Lookup(acc, NavMenu))))
    ensures sub.contentType != NavMenu ==> (r.Done? <==> env.blogExists(sub.targetBlogId))
    ensures sub.contentType != NavMenu && r.Done? ==>
      r.st.current == st.current && r.st.stack == st.stack &&
      r.st.trace == st.trace + [Effect(st.current, SwitchBlog(sub.targetBlogId))] +
        Effects(sub.targetBlogId, TermActions(sub.targetId, acc)) + [Effect(sub.targetBlogId, RestoreBlog)]
    ensures sub.contentType != NavMenu && !env.blogExists(sub.targetBlogId) ==> r == Thrown(BlogNotFound(sub.targetBlogId), st)
    ensures r.Done? ==> r.st.trace == st.trace + ApplyEffects(st.current, sub, acc)
  {
    if sub.contentType != NavMenu then
      if !env.blogExists(sub.targetBlogId) then Thrown(BlogNotFound(sub.targetBlogId), st)
      else
        var s1 := Switch(st, sub.targetBlogId);
        var actions := TermActions(sub.targetId, acc);
        assert NoneThrows(env, actions);
        var s2 := RunActions(s1, actions, env).st;
        RestoreUndoesSwitch(st, sub.targetBlogId, s2.trace);
        Done((), Restore(s2))
    else Done((), Emit(st, AssignMenuItems(sub.targetId, sub.targetBlogId, Lookup(acc, NavMenu))))
  }

  /**
   * Reference: what the final application adds to the trace when it
   * completes: the menu assignment, or the terms of every entry between a
   * switch to the target blog and a restore.
   */
  function ApplyEffects(current: nat, sub: Submission, acc: seq<Pair<seq<nat>>>): seq<Effect> {
    if sub.contentType == NavMenu then [Effect(current, AssignMenuItems(sub.targetId, sub.targetBlogId, Lookup(acc, NavMenu)))]
    else [Effect(current, SwitchBlog(sub.targetBlogId))] + Effects(sub.targetBlogId, TermActions(sub.targetId, acc)) + [Effect(sub.targetBlogId, RestoreBlog)]
  }

  /**
   * `prepareRelatedSubmissions($submission)`: the accumulator starts with
   * empty category and tag lists, collects the translated related ids of
   * every related type, and is applied to the target. A `BlogNotFound` is
   * logged and rethrown, so every exception reaches the caller.
   */
  function PrepareRelatedSubmissions(st: State, sub: Submission, env: Env): (r: Outcome<seq<Pair<seq<nat>>>>)
    ensures r.Done? ==> r.st.current == st.current && r.st.stack == st.stack
    ensures r.Done? ==> IsPrefix([Category, PostTag], Keys(r.value))
    ensures var rel := RelatedFrom(st, InitialAccumulator, sub, env.relatedTypes(sub), 0, env);
      rel.Thrown? ==> r == Thrown(rel.error, rel.st)
    ensures var rel := RelatedFrom(st, InitialAccumulator, sub, env.relatedTypes(sub), 0, env);
      rel.Done? ==> (r.Done? <==> (sub.contentType == NavMenu || env.blogExists(sub.targetBlogId)))
    ensures var rel := RelatedFrom(st, InitialAccumulator, sub, env.relatedTypes(sub), 0, env);
      rel.Done? && sub.contentType != NavMenu && !env.blogExists(sub.targetBlogId) ==>
        r.Thrown? && r.error == BlogNotFound(sub.targetBlogId)
    ensures var rel := RelatedFrom(st, InitialAccumulator, sub, env.relatedTypes(sub), 0, env);
      r.Done? ==> r.value == rel.value
    ensures r.Done? ==> r.value == RelatedAccumulator(InitialAccumulator, sub, env.relatedTypes(sub), env)
    ensures r.Done? ==>
      r.st.trace == st.trace + RelatedEffects(st.current, sub, env.relatedTypes(sub), env) + ApplyEffects(st.current, sub, r.value)
  {
    var types := env.relatedTypes(sub);
    match RelatedFrom(st, InitialAccumulator, sub, types, 0, env)
    case Thrown(e, s) => Thrown(e, s)
    case Done(acc, s1) =>
      assert Keys(InitialAccumulator) == [Category, PostTag];
      assert types[0..] == types;
      match ApplyRelated(s1, acc, sub, env)
      case Thrown(e, s) => Thrown(e, s)
      case Done(_, s2) =>
        TraceStep2(st.trace, s1.trace, s2.trace, RelatedEffects(st.current, sub, types, env), ApplyEffects(st.current, sub, acc));
        Done(acc, s2)
  }

  // ----- download checks -----

  /** `checkEntityForDownload($entity)`: the translation is downloaded iff completion is exactly 100. */
  function CheckEntityForDownload(st: State, e: Submission): (r: State)
    ensures e.completionPercentage == 100 ==> r == Emit(st, DownloadTranslation(e.id))
    ensures e.completionPercentage != 100 ==> r == st
  {
    if e.completionPercentage == 100 then Emit(st, DownloadTranslation(e.id)) else st
  }

  /** `loadSubmissionEntityById($id)`: the first submission found, or an error. */
  function LoadSubmissionEntityById(id: nat, env: Env): (r: Result<Submission, CoreError>)
    ensures r.Success? <==> env.find(id) != []
    ensures r.Success? ==> r.value == env.find(id)[0]
    ensures r.Failure? ==> r.error == SubmissionNotFound(id)
  {
    var found := env.find(id);
    if |found| > 0 then Success(found[0]) else Failure(SubmissionNotFound(id))
  }

  /** The submission of `id` is found and in progress. */
  predicate Checked(id: nat, env: Env) {
    LoadSubmissionEntityById(id, env).Success? && LoadSubmissionEntityById(id, env).value.status == InProgress
  }

  /** Reference: the status-checked submissions of the found in-progress ids, in input order. */
  function CheckedSubmissions(ids: seq<nat>, env: Env): (r: seq<Submission>)
    decreases |ids|
  {
    if ids == [] then []
    else (if Checked(ids[0], env) then [env.checkStatus(env.find(ids[0])[0])] else []) + CheckedSubmissions(ids[1..], env)
  }

  /**
   * `bulkCheckByIds($items)`: unknown ids are skipped; every found
   * submission in progress is status-checked (the entity is updated in
   * place, errors are swallowed), checked for download, and returned.
   */
  method BulkCheckByIds(st: State, items: seq<nat>, env: Env) returns (results: seq<Submission>, st': State)
    ensures results == CheckedSubmissions(items, env)
    ensures st'.current == st.current && st'.stack == st.stack
    ensures st'.trace == st.trace + DownloadEffects(st.current, CheckedSubmissions(items, env))
  {
    results := [];
    st' := st;
    var i := 0;
    while i < |items|
      invariant 0 <= i <= |items|
      invariant results == CheckedSubmissions(items[..i], env)
      invariant st'.current == st.current && st'.stack == st.stack
      invariant st'.trace == st.trace + DownloadEffects(st.current, results)
    {
      CheckedSnoc(items[..i], items[i], env);
      assert items[..i + 1] == items[..i] + [items[i]];
      var loaded := LoadSubmissionEntityById(items[i], env);
      if loaded.Success? && loaded.value.status == InProgress {
        var entity := env.checkStatus(loaded.value);
        DownloadEffectsSnoc(st.current, results, entity);
        st' := CheckEntityForDownload(st', entity);
        results := results + [entity];
      }
      i := i + 1;
    }
    assert items[..i] == items;
  }

  /** The downloads `checkEntityForDownload` triggers for each submission, in order. */
  function DownloadEffects(blog: nat, ss: seq<Submission>): seq<Effect>
    decreases |ss|
  {
    if ss == [] then []
    else
      var head := if ss[0].completionPercentage == 100 then [Effect(blog, DownloadTranslation(ss[0].id))] else [];
      head + DownloadEffects(blog, ss[1..])
  }

  lemma {:induction false} DownloadEffectsSnoc(blog: nat, ss: seq<Submission>, e: Submission)
    ensures DownloadEffects(blog, ss + [e]) ==
      DownloadEffects(blog, ss) + (if e.completionPercentage == 100 then [Effect(blog, DownloadTranslation(e.id))] else [])
    decreases |ss|
  {
    if ss == [] {
      assert [] + [e] == [e];
      assert [e][1..] == [];
    } else {
      var tail := if e.completionPercentage == 100 then [Effect(blog, DownloadTranslation(e.id))] else [];
      var head := if ss[0].completionPercentage == 100 then [Effect(blog, DownloadTranslation(ss[0].id))] else [];
      assert (ss + [e])[0] == ss[0] && (ss + [e])[1..] == ss[1..] + [e];
      assert DownloadEffects(blog, ss + [e]) == head + DownloadEffects(blog, ss[1..] + [e]);
      DownloadEffectsSnoc(blog, ss[1..], e);
      assert DownloadEffects(blog, ss) == head + DownloadEffects(blog, ss[1..]);
      assert head + (DownloadEffects(blog, ss[1..]) + tail) == (head + DownloadEffects(blog, ss[1..])) + tail;
    }
  }

  lemma {:induction false} CheckedSnoc(ids: seq<nat>, id: nat, env: Env)
    ensures CheckedSubmissions(ids + [id], env) ==
      CheckedSubmissions(ids, env) + (if Checked(id, env) then [env.checkStatus(env.find(id)[0])] else [])
    decreases |ids|
  {
    if ids == [] {
      assert [] + [id] == [id];
      assert [id][1..] == [];
    } else {
      assert (ids + [id])[1..] == ids[1..] + [id];
      CheckedSnoc(ids[1..], id, env);
    }
  }

  /** What `bulkCheckByIds` returns: one status-checked submission per found in-progress id, and nothing for unknown ids. */
  lemma {:induction false} CheckedSubmissionsMembers(ids: seq<nat>, env: Env, s: Submission)
    ensures s in CheckedSubmissions(ids, env) <==>
      exists i :: 0 <= i < |ids| && Checked(ids[i], env) && s == env.checkStatus(env.find(ids[i])[0])
    ensures |CheckedSubmissions(ids, env)| <= |ids|
    decreases |ids|
  {
    if ids != [] {
      CheckedSubmissionsMembers(ids[1..], env, s);
      assert forall i :: 0 < i < |ids| ==> ids[i] == ids[1..][i - 1];
      if exists i :: 0 < i < |ids| && Checked(ids[i], env) && s == env.checkStatus(env.find(ids[i])[0]) {
        var i :| 0 < i < |ids| && Checked(ids[i], env) && s == env.checkStatus(env.find(ids[i])[0]);
        assert ids[1..][i - 1] == ids[i];
      }
    }
  }
}
