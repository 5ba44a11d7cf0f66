/**
 * The category filters of the article lists: the home page leaves out the
 * articles filed under 项目展示 (project showcase), the archive page also
 * those filed under 技术分享 (technical sharing).
 */
module ArticleFilter {
  import opened Wrappers

  datatype Category = Category(name: string)

  /** An article as the filters see it: `post_categories` may be missing. */
  datatype Article = Article(title: string, postCategories: Option<seq<Category>>)

  /** The categories left out of the home page. */
  const ExcludedCategories: seq<string> := ["项目展示"]

  /** The categories left out of the archive page. */
  const ExcludedCategoriesForArchive: seq<string> := ["项目展示", "技术分享"]

  /** `categories.some(c => names.includes(c.name))`. */
  function AnyIn(categories: seq<Category>, names: seq<string>): bool
    decreases |categories|
  {
    categories != [] && (categories[0].name in names || AnyIn(categories[1..], names))
  }

  /** `some` is true exactly when one of the categories is named in the list. */
  lemma {:induction false} AnyInSpec(categories: seq<Category>, names: seq<string>)
    ensures AnyIn(categories, names) <==> exists i :: 0 <= i < |categories| && categories[i].name in names
    decreases |categories|
  {
    if categories != [] {
      AnyInSpec(categories[1..], names);
      assert forall i :: 1 <= i < |categories| ==> categories[i] == categories[1..][i - 1];
    }
  }

  /** `isExcludedArticle`. */
  predicate IsExcludedArticle(a: Article) {
    match a.postCategories
    case None => false
    case Some(cs) => |cs| != 0 && AnyIn(cs, ExcludedCategories)
  }

  /** `isExcludedArticleForArchive`. */
  predicate IsExcludedArticleForArchive(a: Article) {
    match a.postCategories
    case None => false
    case Some(cs) => |cs| != 0 && AnyIn(cs, ExcludedCategoriesForArchive)
  }

  /** The category list, missing read as empty. */
  function CategoriesOf(a: Article): seq<Category> {
    match a.postCategories
    case None => []
    case Some(cs) => cs
  }

  /**
   * An article is left out of the home page exactly when one of its
   * categories is named 项目展示, and out of the archive exactly when one is
   * named 项目展示 or 技术分享; one without categories is left out of neither.
   */
  lemma ExcludedSpec(a: Article)
    ensures var cs := CategoriesOf(a);
      && (IsExcludedArticle(a) <==> exists i :: 0 <= i < |cs| && cs[i].name == "项目展示")
      && (IsExcludedArticleForArchive(a) <==>
            exists i :: 0 <= i < |cs| && (cs[i].name == "项目展示" || cs[i].name == "技术分享"))
      && (cs == [] ==> !IsExcludedArticle(a) && !IsExcludedArticleForArchive(a))
  {
    var cs := CategoriesOf(a);
    AnyInSpec(cs, ExcludedCategories);
    AnyInSpec(cs, ExcludedCategoriesForArchive);
  }

  /** What the home page leaves out the archive leaves out too. */
  lemma ExcludedForHomeExcludedForArchive(a: Article)
    ensures IsExcludedArticle(a) ==> IsExcludedArticleForArchive(a)
  {
    var cs := CategoriesOf(a);
    AnyInSpec(cs, ExcludedCategories);
    AnyInSpec(cs, ExcludedCategoriesForArchive);
  }

  /** `xs.filter(keep)`. */
  function Filter<T>(keep: T -> bool, xs: seq<T>): (r: seq<T>)
    ensures |r| <= |xs|
    decreases |xs|
  {
    if xs == [] then []
    else (if keep(xs[0]) then [xs[0]] else []) + Filter(keep, xs[1..])
  }

  /** `filterExcludedArticles`. */
  function FilterExcludedArticles(articles: seq<Article>): seq<Article> {
    Filter(a => !IsExcludedArticle(a), articles)
  }

  /** `filterExcludedArticlesForArchive`. */
  function FilterExcludedArticlesForArchive(articles: seq<Article>): seq<Article> {
    Filter(a => !IsExcludedArticleForArchive(a), articles)
  }

  /* ---------- What a filter keeps ---------- */

  /** The indexes, from `offset` on, of the elements `keep` accepts, in increasing order. */
  function KeptIndexes<T>(keep: T -> bool, xs: seq<T>, offset: nat): seq<nat>
    decreases |xs|
  {
    if xs == [] then []
    else (if keep(xs[0]) then [offset] else []) + KeptIndexes(keep, xs[1..], offset + 1)
  }

  predicate Increasing(ix: seq<nat>) {
    forall j, k :: 0 <= j < k < |ix| ==> ix[j] < ix[k]
  }

  /**
   * The filter keeps exactly the accepted elements, in their order: the
   * result is the input read at increasing indexes, and those indexes are
   * the ones whose element `keep` accepts.
   */
  lemma {:induction false} FilterSpec<T>(keep: T -> bool, xs: seq<T>, offset: nat)
    ensures var r, ix := Filter(keep, xs), KeptIndexes(keep, xs, offset);
      && |ix| == |r|
      && Increasing(ix)
      && (forall j :: 0 <= j < |ix| ==> offset <= ix[j] < offset + |xs| && r[j] == xs[ix[j] - offset])
      && (forall i :: offset <= i < offset + |xs| ==> (keep(xs[i - offset]) <==> i in ix))
    decreases |xs|
  {
    if xs != [] {
      var rest := xs[1..];
      FilterSpec(keep, rest, offset + 1);
      var r, ix := Filter(keep, xs), KeptIndexes(keep, xs, offset);
      var r', ix' := Filter(keep, rest), KeptIndexes(keep, rest, offset + 1);
      var h := if keep(xs[0]) then 1 else 0;
      assert r == (if keep(xs[0]) then [xs[0]] else []) + r';
      assert ix == (if keep(xs[0]) then [offset] else []) + ix';
      forall j | h <= j < |ix|
        ensures ix[j] == ix'[j - h] && r[j] == r'[j - h]
      {
      }
    }
  }

  /** `a` is `b` with some elements left out. */
  ghost predicate Subsequence<T>(a: seq<T>, b: seq<T>)
    decreases |b|
  {
    a == [] || (b != [] && ((a[0] == b[0] && Subsequence(a[1..], b[1..])) || Subsequence(a, b[1..])))
  }

  /** Filtering with a stricter test keeps a subsequence of what the looser test keeps. */
  lemma {:induction false} FilterStricter<T>(strict: T -> bool, loose: T -> bool, xs: seq<T>)
    requires forall x :: strict(x) ==> loose(x)
    ensures Subsequence(Filter(strict, xs), Filter(loose, xs))
    decreases |xs|
  {
    if xs != [] {
      FilterStricter(strict, loose, xs[1..]);
      var a, b := Filter(strict, xs), Filter(loose, xs);
      var a', b' := Filter(strict, xs[1..]), Filter(loose, xs[1..]);
      if strict(xs[0]) {
        assert a[0] == b[0] && a[1..] == a' && b[1..] == b';
      } else if loose(xs[0]) {
        assert a == a' && b[1..] == b';
        SubsequenceDropHead(a, b);
      } else {
        assert a == a' && b == b';
      }
    }
  }

  /** A subsequence of the tail is a subsequence of the whole. */
  lemma SubsequenceDropHead<T>(a: seq<T>, b: seq<T>)
    requires b != [] && Subsequence(a, b[1..])
    ensures Subsequence(a, b)
  {
  }

  /** The home page list holds exactly the articles not filed under 项目展示, in their order. */
  lemma FilterExcludedArticlesSpec(articles: seq<Article>)
    ensures var r, ix := FilterExcludedArticles(articles), KeptIndexes(a => !IsExcludedArticle(a), articles, 0);
      && |ix| == |r| && Increasing(ix)
      && (forall j :: 0 <= j < |ix| ==> ix[j] < |articles| && r[j] == articles[ix[j]])
      && (forall i :: 0 <= i < |articles| ==> (!IsExcludedArticle(articles[i]) <==> i in ix))
  {
    FilterSpec(a => !IsExcludedArticle(a), articles, 0);
  }

  /** The archive list holds exactly the articles filed under neither 项目展示 nor 技术分享, in their order. */
  lemma FilterExcludedArticlesForArchiveSpec(articles: seq<Article>)
    ensures var r, ix := FilterExcludedArticlesForArchive(articles), KeptIndexes(a => !IsExcludedArticleForArchive(a), articles, 0);
      && |ix| == |r| && Increasing(ix)
      && (forall j :: 0 <= j < |ix| ==> ix[j] < |articles| && r[j] == articles[ix[j]])
      && (forall i :: 0 <= i < |articles| ==> (!IsExcludedArticleForArchive(articles[i]) <==> i in ix))
  {
    FilterSpec(a => !IsExcludedArticleForArchive(a), articles, 0);
  }

  /** Filtering with a stricter test after a looser one is filtering with the stricter test alone. */
  lemma {:induction false} FilterAfterLooser<T>(strict: T -> bool, loose: T -> bool, xs: seq<T>)
    requires forall x :: strict(x) ==> loose(x)
    ensures Filter(strict, Filter(loose, xs)) == Filter(strict, xs)
    decreases |xs|
  {
    if xs != [] {
      FilterAfterLooser(strict, loose, xs[1..]);
      var b' := Filter(loose, xs[1..]);
      if loose(xs[0]) {
        var b := [xs[0]] + b';
        assert Filter(loose, xs) == b;
        assert b[0] == xs[0] && b[1..] == b';
        assert Filter(strict, b) == (if strict(xs[0]) then [xs[0]] else []) + Filter(strict, b');
      } else {
        assert Filter(loose, xs) == b';
      }
    }
  }

  /** An article the home page keeps and the archive leaves out is filed under 技术分享. */
  lemma ArchiveOnlyDropsTechSharing(a: Article)
    ensures !IsExcludedArticle(a) && IsExcludedArticleForArchive(a) ==>
      var cs := CategoriesOf(a);
      (exists i :: 0 <= i < |cs| && cs[i].name == "技术分享")
      && (forall i :: 0 <= i < |cs| ==> cs[i].name != "项目展示")
  {
    ExcludedSpec(a);
  }

  /**
   * The archive list is the home page list filtered again with the archive's
   * test, so it is a subsequence of it; what the second pass drops is filed
   * under 技术分享 (`ArchiveOnlyDropsTechSharing`).
   */
  lemma ArchiveWithinHome(articles: seq<Article>)
    ensures FilterExcludedArticlesForArchive(articles)
      == Filter(a => !IsExcludedArticleForArchive(a), FilterExcludedArticles(articles))
    ensures Subsequence(FilterExcludedArticlesForArchive(articles), FilterExcludedArticles(articles))
  {
    forall a ensures !IsExcludedArticleForArchive(a) ==> !IsExcludedArticle(a) {
      ExcludedForHomeExcludedForArchive(a);
    }
    FilterStricter(a => !IsExcludedArticleForArchive(a), a => !IsExcludedArticle(a), articles);
    FilterAfterLooser(a => !IsExcludedArticleForArchive(a), a => !IsExcludedArticle(a), articles);
  }
}
