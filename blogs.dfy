/** The blog index of src/lib/blogs.ts: posts are MDX files of one content
    directory, each with a frontmatter block; the queries list them newest
    first, look one up by slug, and group them by tag and by category.

    Reading and parsing the files is outside the model: the directory is the
    sequence of its entries in the order the file-system glob yields them,
    each with the frontmatter its file parses to, or `None` when the file
    cannot be read or its frontmatter cannot be parsed. */
module Blogs {
  import opened Wrappers
  import opened Seqs
  import opened Text

  /** The frontmatter fields a post may carry. A date is the instant it
      denotes, in milliseconds since the epoch; `None` is a missing or empty
      `date` field. */
  datatype Frontmatter = Frontmatter(
    title: string,
    description: string,
    author: string,
    date: Option<int>,
    slug: Option<string>,
    coverImage: Option<string>,
    category: Option<string>,
    tags: Option<seq<string>>,
    views: Option<int>)

  /** `BlogType`: a loaded post. */
  datatype Blog = Blog(
    title: string,
    description: string,
    author: string,
    date: Option<int>,
    slug: string,
    coverImage: Option<string>,
    category: Option<string>,
    tags: Option<seq<string>>,
    views: Option<int>)

  /** One file of the content directory. */
  datatype Entry = Entry(name: string, data: Option<Frontmatter>)

  const Extension: string := ".mdx"

  /** `importBlog`: the slug is the file name without its `.mdx` extension,
      unless the frontmatter has a `slug` of its own, which the object spread
      writes over it; every other field comes from the frontmatter. */
  function ImportBlog(filename: string, fm: Frontmatter): (b: Blog)
    ensures fm.slug.None? ==> b.slug + Extension == filename || (!EndsWith(filename, Extension) && b.slug == filename)
    ensures fm.slug.Some? ==> b.slug == fm.slug.value
    ensures b.date == fm.date && b.category == fm.category && b.tags == fm.tags
    ensures b.title == fm.title && b.description == fm.description && b.author == fm.author
    ensures b.coverImage == fm.coverImage && b.views == fm.views
  {
    Blog(fm.title, fm.description, fm.author, fm.date,
         fm.slug.GetOr(StripSuffix(filename, Extension)),
         fm.coverImage, fm.category, fm.tags, fm.views)
  }

  // ---------------------------------------------------------------------
  // getAllBlogs

  /** The glob `*.mdx`: a name ending in `.mdx` that is not a dot-file. */
  predicate IsListed(e: Entry)
    ensures IsListed(e) ==> StripSuffix(e.name, Extension) + Extension == e.name && e.name[0] != '.'
  {
    EndsWith(e.name, Extension) && !StartsWith(e.name, ".")
  }

  /** `Promise.all(names.map(importBlog))`: every file loads, or the whole
      call fails. */
  function LoadAll(entries: seq<Entry>): (r: Option<seq<Blog>>)
    ensures r.None? <==> exists i :: 0 <= i < |entries| && entries[i].data.None?
    ensures r.Some? ==> |r.value| == |entries|
    ensures r.Some? ==> forall i :: 0 <= i < |entries| ==>
              entries[i].data.Some? && r.value[i] == ImportBlog(entries[i].name, entries[i].data.value)
  {
    if entries == [] then Some([])
    else match entries[0].data
      case None => None
      case Some(fm) =>
        match LoadAll(entries[1..])
        case None => None
        case Some(rest) =>
          var r := [ImportBlog(entries[0].name, fm)] + rest;
          assert forall i :: 0 < i < |entries| ==> entries[i] == entries[1..][i - 1] && r[i] == rest[i - 1];
          Some(r)
  }

  /** The sort key of the comparator: the date, or 0 for a post without one. */
  function SortKey(b: Blog): (key: int)
    ensures b.date.None? ==> key == 0
    ensures b.date.Some? ==> key == b.date.value
  {
    match b.date
    case Some(t) => t
    case None => 0
  }

  /** Ordered by non-increasing date. */
  predicate NewestFirst(s: seq<Blog>) {
    forall i, j :: 0 <= i < j < |s| ==> SortKey(s[j]) <= SortKey(s[i])
  }

  /** Places `b` before the first post that is not newer than it. */
  function InsertByDate(b: Blog, s: seq<Blog>): (r: seq<Blog>)
    requires NewestFirst(s)
    ensures multiset(r) == multiset(s) + multiset{b}
    ensures NewestFirst(r)
  {
    if s == [] then [b]
    else if SortKey(s[0]) <= SortKey(b) then [b] + s
    else
      var rest := InsertByDate(b, s[1..]);
      assert s == [s[0]] + s[1..];
      NoNewerThan(s[0], b, s[1..], rest);
      [s[0]] + rest
  }

  /** Putting in front of `rest` a post `h` no older than anything in it
      keeps the order; `rest` holds `tail` and `b`. */
  lemma NoNewerThan(h: Blog, b: Blog, tail: seq<Blog>, rest: seq<Blog>)
    requires NewestFirst([h] + tail) && NewestFirst(rest)
    requires SortKey(b) < SortKey(h)
    requires multiset(rest) == multiset(tail) + multiset{b}
    ensures NewestFirst([h] + rest)
  {
    forall y | y in rest ensures SortKey(y) <= SortKey(h) {
      assert y in multiset(rest);
      if y != b {
        assert y in multiset(tail);
        var k :| 0 <= k < |tail| && tail[k] == y;
        assert ([h] + tail)[0] == h && ([h] + tail)[k + 1] == y;
      }
    }
    var r := [h] + rest;
    forall i, j | 0 <= i < j < |r| ensures SortKey(r[j]) <= SortKey(r[i]) {
      assert r[j] == rest[j - 1];
      if i > 0 { assert r[i] == rest[i - 1]; }
    }
  }

  /** The array `sort` with the comparator `zDate - aDate`, which is stable:
      a permutation of `s`, newest first. */
  function SortByDate(s: seq<Blog>): (r: seq<Blog>)
    ensures multiset(r) == multiset(s)
    ensures NewestFirst(r)
  {
    if s == [] then []
    else
      assert s == [s[0]] + s[1..];
      InsertByDate(s[0], SortByDate(s[1..]))
  }

  /** The test "has sort key `k`", as a value that filters can take. */
  function DatedAt(k: int): Blog -> bool {
    b => SortKey(b) == k
  }

  lemma {:induction false} InsertByDateStable(b: Blog, s: seq<Blog>, k: int)
    requires NewestFirst(s)
    ensures Filter(DatedAt(k), InsertByDate(b, s)) == Filter(DatedAt(k), [b]) + Filter(DatedAt(k), s)
  {
    if s == [] {
      assert [b] + s == [b];
    } else if SortKey(s[0]) <= SortKey(b) {
      FilterAppend(DatedAt(k), [b], s);
    } else {
      InsertByDateStable(b, s[1..], k);
      FilterAppend(DatedAt(k), [s[0]], InsertByDate(b, s[1..]));
      FilterAppend(DatedAt(k), [s[0]], s[1..]);
      assert s == [s[0]] + s[1..];
    }
  }

  /** The sort is stable: posts with the same sort key keep the order in
      which the directory listed them. */
  lemma {:induction false} SortByDateStable(s: seq<Blog>, k: int)
    ensures Filter(DatedAt(k), SortByDate(s)) == Filter(DatedAt(k), s)
  {
    if s != [] {
      SortByDateStable(s[1..], k);
      InsertByDateStable(s[0], SortByDate(s[1..]), k);
      FilterAppend(DatedAt(k), [s[0]], s[1..]);
      assert s == [s[0]] + s[1..];
    }
  }

  /** A post without a date sorts after every post dated after the epoch,
      and before every post dated before it. */
  lemma UndatedPosition(s: seq<Blog>, i: nat, j: nat)
    requires i < |SortByDate(s)| && j < |SortByDate(s)|
    requires SortByDate(s)[i].date.None?
    ensures SortByDate(s)[j].date.Some? && SortByDate(s)[j].date.value > 0 ==> j < i
    ensures SortByDate(s)[j].date.Some? && SortByDate(s)[j].date.value < 0 ==> i < j
  {
  }

  /** `getAllBlogs`: every listed file loaded and sorted newest first, or a
      failure when one of them cannot be loaded. */
  function AllBlogs(dir: seq<Entry>): (r: Option<seq<Blog>>)
    ensures r.None? <==> exists e :: e in dir && IsListed(e) && e.data.None?
    ensures r.Some? ==> NewestFirst(r.value)
    ensures r.Some? ==> multiset(r.value) == multiset(LoadAll(Filter(IsListed, dir)).value)
  {
    var listed := Filter(IsListed, dir);
    match LoadAll(listed)
    case None => None
    case Some(bs) => Some(SortByDate(bs))
  }

  /** A listed file is loaded into the index exactly when the whole
      directory loads. */
  lemma AllBlogsHasEveryListedFile(dir: seq<Entry>, e: Entry)
    requires AllBlogs(dir).Some? && e in dir && IsListed(e)
    ensures e.data.Some? && ImportBlog(e.name, e.data.value) in AllBlogs(dir).value
  {
    var listed := Filter(IsListed, dir);
    var bs := LoadAll(listed).value;
    var i :| 0 <= i < |listed| && listed[i] == e;
    assert bs[i] in multiset(bs);
  }

  // ---------------------------------------------------------------------
  // getBlogBySlug

  /** The file a slug is looked up in: the slug without one trailing `.mdx`,
      with `.mdx` appended. */
  function SlugFile(slug: string): (f: string)
    ensures EndsWith(f, Extension)
    ensures StripSuffix(f, Extension) == StripSuffix(slug, Extension)
  {
    var f := StripSuffix(slug, Extension) + Extension;
    StripAppended(StripSuffix(slug, Extension), Extension);
    assert f[|f| - |Extension|..] == Extension;
    f
  }

  /** The first entry with the given name. */
  function Lookup(dir: seq<Entry>, name: string): (r: Option<Entry>)
    ensures r.Some? ==> r.value in dir && r.value.name == name
    ensures r.None? <==> forall e :: e in dir ==> e.name != name
  {
    if dir == [] then None
    else if dir[0].name == name then Some(dir[0])
    else Lookup(dir[1..], name)
  }

  /** `getBlogBySlug`: the post of the slug's file; a missing or unreadable
      file gives `null` rather than an exception. */
  function GetBlogBySlug(dir: seq<Entry>, slug: string): (r: Option<Blog>)
    ensures r.Some? ==> exists e :: e in dir && e.name == SlugFile(slug) && e.data.Some? &&
                          r.value == ImportBlog(e.name, e.data.value)
  {
    match Lookup(dir, SlugFile(slug))
    case Some(Entry(name, Some(fm))) => Some(ImportBlog(name, fm))
    case _ => None
  }

  /** With unique names, `null` means exactly that the slug's file is
      missing or unreadable. */
  lemma GetBlogBySlugNull(dir: seq<Entry>, slug: string)
    requires UniqueNames(dir)
    ensures GetBlogBySlug(dir, slug).None? <==>
              forall e :: e in dir && e.name == SlugFile(slug) ==> e.data.None?
  {
    if GetBlogBySlug(dir, slug).None? {
      forall e | e in dir && e.name == SlugFile(slug) ensures e.data.None? {
        LookupUnique(dir, e);
      }
    }
  }

  /** Looking a slug up again by its own file name finds the same file;
      `x` and `x.mdx` are looked up in the same file exactly when `x` does
      not already end in `.mdx` (then `x.mdx.mdx` names another file). */
  lemma SlugFileCanonical(x: string)
    ensures SlugFile(SlugFile(x)) == SlugFile(x)
    ensures SlugFile(x) == SlugFile(x + Extension) <==> !EndsWith(x, Extension)
  {
    StripAppended(StripSuffix(x, Extension), Extension);
    StripAppended(x, Extension);
    if EndsWith(x, Extension) {
      assert |SlugFile(x)| == |x| < |SlugFile(x + Extension)|;
    }
  }

  lemma SlugWithOrWithoutExtension(dir: seq<Entry>, x: string)
    requires !EndsWith(x, Extension)
    ensures GetBlogBySlug(dir, x + Extension) == GetBlogBySlug(dir, x)
  {
    SlugFileCanonical(x);
  }

  /** Names in a directory are unique. */
  predicate UniqueNames(dir: seq<Entry>) {
    forall i, j :: 0 <= i < j < |dir| ==> dir[i].name != dir[j].name
  }

  lemma {:induction false} LookupUnique(dir: seq<Entry>, e: Entry)
    requires UniqueNames(dir) && e in dir
    ensures Lookup(dir, e.name) == Some(e)
  {
    if dir[0] != e {
      assert e in dir[1..];
      assert UniqueNames(dir[1..]) by {
        forall i, j | 0 <= i < j < |dir[1..]| ensures dir[1..][i].name != dir[1..][j].name {
          assert dir[1..][i] == dir[i + 1] && dir[1..][j] == dir[j + 1];
        }
      }
      var k :| 0 <= k < |dir| && dir[k] == e;
      assert dir[0].name != e.name;
      LookupUnique(dir[1..], e);
    }
  }

  /** A listed post whose frontmatter does not override the slug is found
      again by its slug. */
  lemma SlugRoundTrip(dir: seq<Entry>, e: Entry)
    requires UniqueNames(dir) && e in dir && IsListed(e)
    requires e.data.Some? && e.data.value.slug.None?
    requires !EndsWith(e.name, Extension + Extension)
    ensures GetBlogBySlug(dir, ImportBlog(e.name, e.data.value).slug) == Some(ImportBlog(e.name, e.data.value))
  {
    var slug := ImportBlog(e.name, e.data.value).slug;
    assert slug + Extension == e.name;
    StripAppended(slug, Extension);
    LookupUnique(dir, e);
  }

  /** The exception: a file named `a.mdx.mdx` gets the slug `a.mdx`, and that
      slug is looked up in `a.mdx`, so a directory holding only the former
      does not find it again. */
  lemma DoubleExtensionNotFoundBySlug(fm: Frontmatter)
    requires fm.slug.None?
    ensures var dir := [Entry("a.mdx.mdx", Some(fm))];
            ImportBlog("a.mdx.mdx", fm).slug == "a.mdx" && GetBlogBySlug(dir, "a.mdx").None?
  {
    var dir := [Entry("a.mdx.mdx", Some(fm))];
    assert EndsWith("a.mdx.mdx", Extension);
    assert StripSuffix("a.mdx.mdx", Extension) == "a.mdx";
    assert SlugFile("a.mdx") == "a.mdx";
    assert Lookup(dir, "a.mdx") == Lookup([], "a.mdx");
  }

  /** A frontmatter slug that differs from the file's stem is the post's
      slug, but it is looked up as a file name: `a.mdx` with slug `b` is
      looked up in `b.mdx` and not found. */
  lemma FrontmatterSlugNotFoundBySlug(fm: Frontmatter)
    requires fm.slug == Some("b")
    ensures var dir := [Entry("a.mdx", Some(fm))];
            ImportBlog("a.mdx", fm).slug == "b" && GetBlogBySlug(dir, "b").None?
  {
    var dir := [Entry("a.mdx", Some(fm))];
    assert !EndsWith("b", Extension);
    assert SlugFile("b") == "b.mdx";
    assert Lookup(dir, "b.mdx") == Lookup([], "b.mdx");
  }

  // ---------------------------------------------------------------------
  // Tags

  predicate HasTag(b: Blog, t: string) {
    b.tags.Some? && t in b.tags.value
  }

  ghost predicate TagUsed(blogs: seq<Blog>, t: string) {
    exists i :: 0 <= i < |blogs| && HasTag(blogs[i], t)
  }

  /** `getAllTags`: every tag of every post, once each, in ascending order. */
  method AllTags(blogs: seq<Blog>) returns (tags: seq<string>)
    ensures Ascending(tags)
    ensures forall t :: t in tags <==> TagUsed(blogs, t)
  {
    var tagSet: seq<string> := [];
    for i := 0 to |blogs|
      invariant Distinct(tagSet)
      invariant forall t :: t in tagSet <==> TagUsed(blogs[..i], t)
    {
      match blogs[i].tags {
        case None =>
        case Some(ts) =>
          for j := 0 to |ts|
            invariant Distinct(tagSet)
            invariant forall t :: t in tagSet <==> TagUsed(blogs[..i], t) || t in ts[..j]
          {
            assert ts[..j + 1] == ts[..j] + [ts[j]];
            tagSet := SetAdd(tagSet, ts[j]);
          }
          assert ts[..|ts|] == ts;
      }
      assert forall t :: TagUsed(blogs[..i + 1], t) <==> TagUsed(blogs[..i], t) || HasTag(blogs[i], t) by {
        assert forall k :: 0 <= k < i ==> blogs[..i + 1][k] == blogs[..i][k];
        assert blogs[..i + 1][i] == blogs[i];
      }
    }
    assert blogs[..|blogs|] == blogs;
    SortedElements(tagSet);
    tags := SortStrings(tagSet);
  }

  /** The test "has tag `t`", as a value that filters can take. */
  function TaggedWith(t: string): Blog -> bool {
    b => HasTag(b, t)
  }

  /** `getBlogsByTag`: the posts whose tags contain the decoded tag, in the
      order of `blogs`. The tag is decoded inside the filter, once for each
      post that has a `tags` field, so a tag that does not decode fails the
      query exactly when some post has tags. */
  function BlogsByTag(blogs: seq<Blog>, tag: string, decode: string -> Option<string>): (r: Option<seq<Blog>>)
    ensures r.None? <==> decode(tag).None? && exists i :: 0 <= i < |blogs| && blogs[i].tags.Some?
    ensures r.Some? ==> forall b :: b in r.value <==> b in blogs && decode(tag).Some? && HasTag(b, decode(tag).value)
    ensures r.Some? ==> forall b :: multiset(r.value)[b] ==
                                      if decode(tag).Some? && HasTag(b, decode(tag).value)
                                      then multiset(blogs)[b] else 0
    ensures r.Some? ==> Subsequence(r.value, blogs)
  {
    if forall i | 0 <= i < |blogs| :: blogs[i].tags.None? then
      assert forall b :: b in blogs ==> b.tags.None?;
      Some([])
    else match decode(tag)
      case None => None
      case Some(t) =>
        FilterIsSubsequence(TaggedWith(t), blogs);
        FilterCounts(TaggedWith(t), blogs);
        Some(Filter(TaggedWith(t), blogs))
  }

  lemma {:induction false} FilterNewestFirst(p: Blog -> bool, s: seq<Blog>)
    requires NewestFirst(s)
    ensures NewestFirst(Filter(p, s))
  {
    if s != [] {
      FilterNewestFirst(p, s[1..]);
      var rest := Filter(p, s[1..]);
      forall y | y in rest ensures SortKey(y) <= SortKey(s[0]) {
        var k :| 0 <= k < |s[1..]| && s[1..][k] == y;
        assert s[k + 1] == y;
      }
      var r := (if p(s[0]) then [s[0]] else []) + rest;
      assert forall j :: 0 < j < |r| && p(s[0]) ==> r[j] == rest[j - 1];
    }
  }

  /** Filtering the newest-first list keeps it newest first. */
  lemma BlogsByTagNewestFirst(blogs: seq<Blog>, tag: string, decode: string -> Option<string>)
    requires NewestFirst(blogs) && BlogsByTag(blogs, tag, decode).Some?
    ensures NewestFirst(BlogsByTag(blogs, tag, decode).value)
  {
    if decode(tag).Some? {
      FilterNewestFirst(TaggedWith(decode(tag).value), blogs);
    }
  }

  // ---------------------------------------------------------------------
  // Categories

  /** `if (blog.category)`: a category that is present and not empty. */
  predicate Categorised(b: Blog) {
    b.category.Some? && b.category.value != ""
  }

  ghost predicate CategoryUsed(blogs: seq<Blog>, c: string) {
    exists i :: 0 <= i < |blogs| && Categorised(blogs[i]) && blogs[i].category.value == c
  }

  /** `getAllCategories`: every non-empty category, once each, ascending. */
  method AllCategories(blogs: seq<Blog>) returns (categories: seq<string>)
    ensures Ascending(categories)
    ensures forall c :: c in categories <==> CategoryUsed(blogs, c)
    ensures "" !in categories
  {
    var categorySet: seq<string> := [];
    for i := 0 to |blogs|
      invariant Distinct(categorySet)
      invariant forall c :: c in categorySet <==> CategoryUsed(blogs[..i], c)
    {
      if Categorised(blogs[i]) {
        categorySet := SetAdd(categorySet, blogs[i].category.value);
      }
      assert forall c :: CategoryUsed(blogs[..i + 1], c) <==>
          CategoryUsed(blogs[..i], c) || (Categorised(blogs[i]) && blogs[i].category.value == c) by {
        assert forall k :: 0 <= k < i ==> blogs[..i + 1][k] == blogs[..i][k];
        assert blogs[..i + 1][i] == blogs[i];
      }
    }
    assert blogs[..|blogs|] == blogs;
    SortedElements(categorySet);
    categories := SortStrings(categorySet);
  }

  /** The test "is in category `c`", as a value that filters can take. */
  function InCategory(c: string): Blog -> bool {
    b => Categorised(b) && b.category.value == c
  }

  /** `getBlogsByCategory`: the posts whose category is the decoded one, in
      the order of `blogs`; posts without a category are never returned. The
      category is decoded only for posts that have a non-empty one. */
  function BlogsByCategory(blogs: seq<Blog>, category: string, decode: string -> Option<string>): (r: Option<seq<Blog>>)
    ensures r.None? <==> decode(category).None? && exists i :: 0 <= i < |blogs| && Categorised(blogs[i])
    ensures r.Some? ==> forall b :: b in r.value <==>
              b in blogs && Categorised(b) && decode(category) == Some(b.category.value)
    ensures r.Some? ==> forall b :: multiset(r.value)[b] ==
                                      if Categorised(b) && decode(category) == Some(b.category.value)
                                      then multiset(blogs)[b] else 0
    ensures r.Some? ==> Subsequence(r.value, blogs)
  {
    if forall i | 0 <= i < |blogs| :: !Categorised(blogs[i]) then
      assert forall b :: b in blogs ==> !Categorised(b);
      Some([])
    else match decode(category)
      case None => None
      case Some(c) =>
        FilterIsSubsequence(InCategory(c), blogs);
        FilterCounts(InCategory(c), blogs);
        Some(Filter(InCategory(c), blogs))
  }

  lemma BlogsByCategoryNewestFirst(blogs: seq<Blog>, category: string, decode: string -> Option<string>)
    requires NewestFirst(blogs) && BlogsByCategory(blogs, category, decode).Some?
    ensures NewestFirst(BlogsByCategory(blogs, category, decode).value)
  {
    if decode(category).Some? {
      FilterNewestFirst(InCategory(decode(category).value), blogs);
    }
  }
}
