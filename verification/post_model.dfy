/**
 * The blog post document (api/models/post.model.js): its enumerations, stats
 * counters and defaults, the `estimatedReadingTime` virtual, and the pre-save
 * hook that refreshes the reading time and stamps the first publication.
 * SEO fields, featured image and cover image are not modelled.
 */
module PostModel {
  import opened Wrappers
  import opened Text

  datatype PostStatus = Draft | Published | Archived

  datatype PostCategory =
    Technology | Programming | Design | Business | Lifestyle | Tutorial | News | Uncategorized

  datatype PostStats = PostStats(views: nat, likes: nat, shares: nat, comments: nat)

  /** A stored post; `publishedAt` is in milliseconds since the epoch. */
  datatype Post = Post(
    id: string,
    userId: string,
    content: string,
    title: string,
    excerpt: string,
    category: PostCategory,
    tags: seq<string>,
    slug: string,
    status: PostStatus,
    isFeatured: bool,
    isPublished: bool,
    publishedAt: Option<int>,
    readingTime: nat,
    stats: PostStats)

  /** The string stored for each category value; category documents are matched against it by name. */
  function CategoryName(c: PostCategory): string {
    match c
    case Technology => "technology"
    case Programming => "programming"
    case Design => "design"
    case Business => "business"
    case Lifestyle => "lifestyle"
    case Tutorial => "tutorial"
    case News => "news"
    case Uncategorized => "uncategorized"
  }

  const WordsPerMinute: nat := 200

  /** `content.split(' ').length`: the number of pieces between single spaces. */
  function WordCount(content: string): nat {
    CountChar(content, ' ') + 1
  }

  /** Joining two texts with a space gives as many pieces as the two have together. */
  lemma {:induction false} WordCountJoin(a: string, b: string)
    ensures WordCount(a + " " + b) == WordCount(a) + WordCount(b)
  {
    CountCharAppend(a + " ", b, ' ');
    CountCharAppend(a, " ", ' ');
  }

  /** `Math.ceil(n / d)` for a non-negative `n` and a positive `d`. */
  function CeilDiv(n: nat, d: nat): (q: nat)
    requires d > 0
    ensures q * d >= n && (q == 0 || (q - 1) * d < n)
  {
    (n + d - 1) / d
  }

  /** The `estimatedReadingTime` virtual: whole minutes at 200 words a minute, rounded up. */
  function EstimatedReadingTime(content: string): (r: nat)
    ensures r >= 1
    ensures r * WordsPerMinute >= WordCount(content) > (r - 1) * WordsPerMinute
  {
    CeilDiv(WordCount(content), WordsPerMinute)
  }

  /** The schema's validators: required fields and length bounds, slug in lower case. */
  predicate WellFormed(p: Post) {
    && p.userId != ""
    && |p.content| >= 10
    && p.title != "" && |p.title| <= 200
    && |p.excerpt| <= 300
    && (forall t :: t in p.tags ==> |t| <= 20)
    && p.slug != "" && Lower(p.slug) == p.slug
  }

  /**
   * A new post document: the title through the `trim` setter, the slug
   * through `lowercase` and `trim`, and the schema's defaults for the rest.
   */
  function NewPost(id: string, userId: string, content: string, title: string, slug: string): (p: Post)
    ensures p.id == id && p.userId == userId && p.content == content
    ensures p.title == Trim(title) && p.slug == Lower(Trim(slug))
    ensures p.status == Draft && p.category == Uncategorized && p.excerpt == "" && p.tags == []
    ensures p.stats == PostStats(0, 0, 0, 0)
    ensures !p.isPublished && p.publishedAt.None? && !p.isFeatured && p.readingTime == 0
    ensures WellFormed(p) <==> && userId != "" && |content| >= 10 && Trim(title) != "" && |Trim(title)| <= 200
                               && Trim(slug) != ""
  {
    LowerTwice(Trim(slug));
    Post(id, userId, content, Trim(title), "", Uncategorized, [], Lower(Trim(slug)), Draft, false, false, None, 0,
         PostStats(0, 0, 0, 0))
  }

  /** Document paths whose modification the pre-save hook looks at. */
  datatype PostPath = ContentPath | StatusPath

  /**
   * The effect of the pre-save hook on a post whose modified paths are
   * `modified`, saved at time `now`.
   */
  function Saved(p: Post, modified: set<PostPath>, now: int): (q: Post)
    ensures q.readingTime == if ContentPath in modified then EstimatedReadingTime(p.content) else p.readingTime
    ensures q.publishedAt != p.publishedAt <==> StatusPath in modified && p.status == Published && p.publishedAt.None?
    ensures q.publishedAt != p.publishedAt ==> q.publishedAt == Some(now) && q.isPublished
    ensures q.publishedAt == p.publishedAt ==> q.isPublished == p.isPublished
    ensures q.(readingTime := p.readingTime, publishedAt := p.publishedAt, isPublished := p.isPublished) == p
  {
    var p1 := if ContentPath in modified then p.(readingTime := EstimatedReadingTime(p.content)) else p;
    if StatusPath in modified && p1.status == Published && p1.publishedAt.None? then
      p1.(publishedAt := Some(now), isPublished := true)
    else p1
  }

  /** One save: the paths modified since the last one, and the time of saving. */
  datatype SaveStep = SaveStep(modified: set<PostPath>, now: int)

  function SaveAll(p: Post, steps: seq<SaveStep>): Post
    decreases |steps|
  {
    if steps == [] then p else SaveAll(Saved(p, steps[0].modified, steps[0].now), steps[1..])
  }

  /** Once `publishedAt` is set, no sequence of later saves changes it. */
  lemma {:induction false} PublishedAtIsStable(p: Post, steps: seq<SaveStep>)
    requires p.publishedAt.Some?
    ensures SaveAll(p, steps).publishedAt == p.publishedAt
    decreases |steps|
  {
    if steps != [] {
      PublishedAtIsStable(Saved(p, steps[0].modified, steps[0].now), steps[1..]);
    }
  }

  /**
   * Over any sequence of saves of a never-published post, a `publishedAt` that
   * ends up set holds the time of a save that modified the status.
   */
  lemma {:induction false} PublishedAtIsFirstPublication(p: Post, steps: seq<SaveStep>)
    requires p.publishedAt.None?
    ensures var q := SaveAll(p, steps);
            q.publishedAt.Some? ==>
              exists i :: 0 <= i < |steps| && q.publishedAt == Some(steps[i].now) && StatusPath in steps[i].modified
    decreases |steps|
  {
    if steps != [] {
      var p1 := Saved(p, steps[0].modified, steps[0].now);
      if p1.publishedAt.Some? {
        PublishedAtIsStable(p1, steps[1..]);
        assert SaveAll(p, steps).publishedAt == Some(steps[0].now);
      } else {
        PublishedAtIsFirstPublication(p1, steps[1..]);
        var q := SaveAll(p, steps);
        if q.publishedAt.Some? {
          var i :| 0 <= i < |steps[1..]| && q.publishedAt == Some(steps[1..][i].now)
                   && StatusPath in steps[1..][i].modified;
          assert steps[1..][i] == steps[i + 1];
        }
      }
    }
  }

  /**
   * A mongoose post document during `save()`: the stored fields and the paths
   * modified since it was loaded or created.
   */
  class PostDocument {
    var post: Post
    var modified: set<PostPath>

    /** A new document: every path counts as modified. */
    constructor Create(p: Post)
      ensures post == p && modified == {ContentPath, StatusPath}
    {
      post := p;
      modified := {ContentPath, StatusPath};
    }

    /** The pre-save hook. */
    method PreSave(now: int)
      modifies this`post
      ensures post == Saved(old(post), modified, now)
      ensures old(post).publishedAt.Some? ==> post.publishedAt == old(post).publishedAt
    {
      if ContentPath in modified {
        post := post.(readingTime := EstimatedReadingTime(post.content));
      }
      if StatusPath in modified && post.status == Published && post.publishedAt.None? {
        post := post.(publishedAt := Some(now), isPublished := true);
      }
    }
  }

  /** The first save of a new post always leaves a reading time of at least one minute. */
  lemma {:induction false} FirstSaveSetsReadingTime(p: Post, now: int)
    ensures Saved(p, {ContentPath, StatusPath}, now).readingTime >= 1
  {
  }
}
