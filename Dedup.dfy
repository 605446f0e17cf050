/**
 * The two file sinks' deduplication by `link`: the tabular writer keeps the
 * first article seen for each link (`drop_duplicates(subset='link')` with its
 * default `keep='first'`), the document writer keeps the last one, at the
 * position where the link first appeared (a dict comprehension keyed by link).
 */
module Dedup {
  import opened Entries

  /** Some article of `s` carries link `l`. */
  predicate HasLink(s: seq<Article>, l: string)
  {
    exists i :: 0 <= i < |s| && s[i].link == l
  }

  /** No two articles of `s` share a link. */
  ghost predicate DistinctLinks(s: seq<Article>)
  {
    forall i, j :: 0 <= i < j < |s| ==> s[i].link != s[j].link
  }

  /** The links of `s`, in order. */
  function Links(s: seq<Article>): (r: seq<string>)
    ensures |r| == |s|
  {
    seq(|s|, i requires 0 <= i < |s| => s[i].link)
  }

  /** The position of the first article of `s` with link `l`. */
  function FirstIndex(s: seq<Article>, l: string): (i: int)
    requires HasLink(s, l)
    ensures 0 <= i < |s| && s[i].link == l
    ensures forall j :: 0 <= j < i ==> s[j].link != l
  {
    var p := s[..|s| - 1];
    if HasLink(p, l) then FirstIndex(p, l) else |s| - 1
  }

  /** The position of the last article of `s` with link `l`. */
  function LastIndex(s: seq<Article>, l: string): (i: int)
    requires HasLink(s, l)
    ensures 0 <= i < |s| && s[i].link == l
    ensures forall j :: i < j < |s| ==> s[j].link != l
  {
    if s[|s| - 1].link == l then |s| - 1 else LastIndex(s[..|s| - 1], l)
  }

  /** The rows `save_to_csv` writes: each link once, with its first article, in input order. */
  function KeepFirstByLink(s: seq<Article>): (r: seq<Article>)
    ensures |r| <= |s|
  {
    if s == [] then []
    else
      var kept := KeepFirstByLink(s[..|s| - 1]);
      var x := s[|s| - 1];
      if HasLink(kept, x.link) then kept else kept + [x]
  }

  /** Whether `s` has link `l`, split at its last article. */
  lemma HasLinkSnoc(s: seq<Article>, l: string)
    requires s != []
    ensures HasLink(s, l) <==> HasLink(s[..|s| - 1], l) || s[|s| - 1].link == l
  {
    var p := s[..|s| - 1];
    if HasLink(s, l) && s[|s| - 1].link != l {
      var i :| 0 <= i < |s| && s[i].link == l;
      assert p[i] == s[i];
    }
    if HasLink(p, l) {
      var i :| 0 <= i < |p| && p[i].link == l;
      assert s[i] == p[i];
    }
  }

  lemma HasLinkAppend(s: seq<Article>, x: Article, l: string)
    ensures HasLink(s + [x], l) <==> HasLink(s, l) || x.link == l
  {
    HasLinkSnoc(s + [x], l);
    assert (s + [x])[..|s|] == s;
  }

  /** The links the tabular writer keeps are exactly the input's links. */
  lemma {:induction false} KeepFirstCovers(s: seq<Article>)
    ensures forall l :: HasLink(KeepFirstByLink(s), l) <==> HasLink(s, l)
  {
    if s != [] {
      var p, x := s[..|s| - 1], s[|s| - 1];
      KeepFirstCovers(p);
      forall l ensures HasLink(KeepFirstByLink(s), l) <==> HasLink(s, l) {
        HasLinkSnoc(s, l);
        HasLinkAppend(KeepFirstByLink(p), x, l);
      }
    }
  }

  /** No link occurs twice among the tabular writer's rows. */
  lemma {:induction false} KeepFirstDistinct(s: seq<Article>)
    ensures DistinctLinks(KeepFirstByLink(s))
  {
    if s != [] {
      var p, x := s[..|s| - 1], s[|s| - 1];
      KeepFirstDistinct(p);
      var kept := KeepFirstByLink(p);
      if !HasLink(kept, x.link) {
        forall k | 0 <= k < |kept| ensures kept[k].link != x.link {
          assert HasLink(kept, kept[k].link);
        }
      }
    }
  }

  /** Each of the tabular writer's rows is the input's first article with that row's link. */
  lemma {:induction false} KeepFirstPicksFirst(s: seq<Article>)
    ensures forall k :: 0 <= k < |KeepFirstByLink(s)| ==>
      HasLink(s, KeepFirstByLink(s)[k].link) && KeepFirstByLink(s)[k] == s[FirstIndex(s, KeepFirstByLink(s)[k].link)]
  {
    if s != [] {
      var p, x := s[..|s| - 1], s[|s| - 1];
      KeepFirstPicksFirst(p);
      var kept := KeepFirstByLink(p);
      forall k | 0 <= k < |kept| ensures HasLink(s, kept[k].link) && kept[k] == s[FirstIndex(s, kept[k].link)] {
        HasLinkSnoc(s, kept[k].link);
        assert s[FirstIndex(p, kept[k].link)] == p[FirstIndex(p, kept[k].link)];
      }
      if !HasLink(kept, x.link) {
        KeepFirstCovers(p);
        HasLinkSnoc(s, x.link);
        assert FirstIndex(s, x.link) == |s| - 1;
      }
    }
  }

  /** The tabular writer's rows keep the input order of their links' first appearances. */
  lemma {:induction false} KeepFirstOrdered(s: seq<Article>)
    ensures forall k, m :: 0 <= k < m < |KeepFirstByLink(s)| ==>
      HasLink(s, KeepFirstByLink(s)[k].link) && HasLink(s, KeepFirstByLink(s)[m].link) &&
      FirstIndex(s, KeepFirstByLink(s)[k].link) < FirstIndex(s, KeepFirstByLink(s)[m].link)
  {
    KeepFirstPicksFirst(s);
    if s != [] {
      var p, x := s[..|s| - 1], s[|s| - 1];
      KeepFirstOrdered(p);
      KeepFirstPicksFirst(p);
      var kept := KeepFirstByLink(p);
      assert forall k :: 0 <= k < |kept| ==> FirstIndex(s, kept[k].link) == FirstIndex(p, kept[k].link);
      if !HasLink(kept, x.link) {
        KeepFirstCovers(p);
        assert FirstIndex(s, x.link) == |s| - 1;
      }
    }
  }

  /**
   * The tabular writer's output has pairwise distinct links and covers every
   * input link; each row is the input's first article with that link, and rows
   * appear in the order of those first appearances, so the output is a
   * subsequence of the input.
   */
  lemma KeepFirstSpec(s: seq<Article>)
    ensures forall l :: HasLink(KeepFirstByLink(s), l) <==> HasLink(s, l)
    ensures DistinctLinks(KeepFirstByLink(s))
    ensures forall k :: 0 <= k < |KeepFirstByLink(s)| ==>
      HasLink(s, KeepFirstByLink(s)[k].link) && KeepFirstByLink(s)[k] == s[FirstIndex(s, KeepFirstByLink(s)[k].link)]
    ensures forall k, m :: 0 <= k < m < |KeepFirstByLink(s)| ==>
      HasLink(s, KeepFirstByLink(s)[k].link) && HasLink(s, KeepFirstByLink(s)[m].link) &&
      FirstIndex(s, KeepFirstByLink(s)[k].link) < FirstIndex(s, KeepFirstByLink(s)[m].link)
  {
    KeepFirstCovers(s);
    KeepFirstDistinct(s);
    KeepFirstPicksFirst(s);
    KeepFirstOrdered(s);
  }

  /** An ordered dictionary from link to article, as a Python `dict` keeps its keys in insertion order. */
  datatype LinkIndex = LinkIndex(order: seq<string>, byLink: map<string, Article>)

  /** `unique[x.link] = x`: a new key goes to the end, an existing key keeps its place and takes the new value. */
  function Assign(d: LinkIndex, x: Article): (r: LinkIndex)
    ensures x.link in r.byLink && r.byLink[x.link] == x
    ensures forall l :: l in r.byLink <==> l in d.byLink || l == x.link
    ensures forall l :: l in d.byLink && l != x.link ==> r.byLink[l] == d.byLink[l]
    ensures |d.order| <= |r.order| <= |d.order| + 1 && r.order[..|d.order|] == d.order
    ensures x.link in d.byLink ==> r.order == d.order
    ensures x.link !in d.byLink ==> r.order == d.order + [x.link]
  {
    if x.link in d.byLink then d.(byLink := d.byLink[x.link := x])
    else LinkIndex(d.order + [x.link], d.byLink[x.link := x])
  }

  /** `{item['link']: item for item in data}`. */
  function BuildIndex(s: seq<Article>): (d: LinkIndex)
    ensures forall k :: 0 <= k < |d.order| ==> d.order[k] in d.byLink
  {
    if s == [] then LinkIndex([], map[]) else Assign(BuildIndex(s[..|s| - 1]), s[|s| - 1])
  }

  /** The records `save_to_json` writes: `list(unique.values())`. */
  function KeepLastByLink(s: seq<Article>): (r: seq<Article>)
  {
    var d := BuildIndex(s);
    seq(|d.order|, i requires 0 <= i < |d.order| => d.byLink[d.order[i]])
  }

  /** The dictionary's keys are exactly the input's links. */
  lemma {:induction false} BuildIndexKeys(s: seq<Article>)
    ensures forall l :: l in BuildIndex(s).byLink <==> HasLink(s, l)
  {
    if s != [] {
      BuildIndexKeys(s[..|s| - 1]);
      forall l ensures l in BuildIndex(s).byLink <==> HasLink(s, l) {
        HasLinkSnoc(s, l);
      }
    }
  }

  /** The dictionary maps each link to the last input article with that link. */
  lemma {:induction false} BuildIndexValues(s: seq<Article>)
    ensures forall l :: l in BuildIndex(s).byLink ==> HasLink(s, l) && BuildIndex(s).byLink[l] == s[LastIndex(s, l)]
  {
    BuildIndexKeys(s);
    if s != [] {
      var p, x := s[..|s| - 1], s[|s| - 1];
      BuildIndexValues(p);
      forall l | l in BuildIndex(s).byLink ensures BuildIndex(s).byLink[l] == s[LastIndex(s, l)] {
        if l != x.link {
          var i := LastIndex(p, l);
          assert s[i] == p[i];
        }
      }
    }
  }

  /** The dictionary lists its keys in the order of their first appearance, as the tabular writer keeps them. */
  lemma {:induction false} BuildIndexOrder(s: seq<Article>)
    ensures BuildIndex(s).order == Links(KeepFirstByLink(s))
  {
    if s != [] {
      var p, x := s[..|s| - 1], s[|s| - 1];
      BuildIndexOrder(p);
      BuildIndexKeys(p);
      KeepFirstCovers(p);
      var kept, idx := KeepFirstByLink(p), BuildIndex(p);
      assert BuildIndex(s) == Assign(idx, x);
      if HasLink(kept, x.link) {
        assert x.link in idx.byLink;
      } else {
        assert x.link !in idx.byLink;
        assert KeepFirstByLink(s) == kept + [x];
        assert Links(kept + [x]) == Links(kept) + [x.link];
      }
    }
  }

  /** The document writer lists the same links, in the same order, as the tabular writer. */
  lemma KeepLastLinks(s: seq<Article>)
    ensures Links(KeepLastByLink(s)) == Links(KeepFirstByLink(s))
  {
    BuildIndexOrder(s);
    BuildIndexValues(s);
    var d, r := BuildIndex(s), KeepLastByLink(s);
    forall k | 0 <= k < |r| ensures r[k].link == d.order[k] {
      assert d.order[k] in d.byLink;
    }
  }

  /** Each record of the document writer is the input's last article with its link. */
  lemma KeepLastAt(s: seq<Article>, k: int)
    requires 0 <= k < |KeepLastByLink(s)|
    ensures HasLink(s, KeepLastByLink(s)[k].link) && KeepLastByLink(s)[k] == s[LastIndex(s, KeepLastByLink(s)[k].link)]
  {
    BuildIndexValues(s);
    var d := BuildIndex(s);
    assert d.order[k] in d.byLink;
  }

  /**
   * The document writer's output has pairwise distinct links and covers every
   * input link; each record is the input's LAST article with its link, and the
   * records appear in the order of the links' FIRST appearances.
   */
  lemma KeepLastSpec(s: seq<Article>)
    ensures forall l :: HasLink(KeepLastByLink(s), l) <==> HasLink(s, l)
    ensures DistinctLinks(KeepLastByLink(s))
    ensures forall k :: 0 <= k < |KeepLastByLink(s)| ==>
      HasLink(s, KeepLastByLink(s)[k].link) && KeepLastByLink(s)[k] == s[LastIndex(s, KeepLastByLink(s)[k].link)]
    ensures forall k, m :: 0 <= k < m < |KeepLastByLink(s)| ==>
      HasLink(s, KeepLastByLink(s)[k].link) && HasLink(s, KeepLastByLink(s)[m].link) &&
      FirstIndex(s, KeepLastByLink(s)[k].link) < FirstIndex(s, KeepLastByLink(s)[m].link)
  {
    KeepFirstCovers(s);
    KeepFirstDistinct(s);
    KeepFirstOrdered(s);
    var r, f := KeepLastByLink(s), KeepFirstByLink(s);
    KeepLastLinks(s);
    forall k | 0 <= k < |r| ensures r[k].link == f[k].link && HasLink(s, r[k].link) && r[k] == s[LastIndex(s, r[k].link)] {
      assert r[k].link == Links(r)[k] == Links(f)[k] == f[k].link;
      KeepLastAt(s, k);
    }
    forall l ensures HasLink(r, l) <==> HasLink(f, l) {
      if HasLink(r, l) {
        var k :| 0 <= k < |r| && r[k].link == l;
        assert f[k].link == l;
      }
      if HasLink(f, l) {
        var k :| 0 <= k < |f| && f[k].link == l;
        assert r[k].link == l;
      }
    }
  }

  /** Input whose links are already distinct passes through the tabular writer unchanged. */
  lemma {:induction false} DistinctKeepFirstUnchanged(s: seq<Article>)
    requires DistinctLinks(s)
    ensures KeepFirstByLink(s) == s
  {
    if s != [] {
      var p, x := s[..|s| - 1], s[|s| - 1];
      assert DistinctLinks(p) by {
        forall i, j | 0 <= i < j < |p| ensures p[i].link != p[j].link {
          assert p[i] == s[i] && p[j] == s[j];
        }
      }
      DistinctKeepFirstUnchanged(p);
      assert !HasLink(p, x.link);
      assert p + [x] == s;
    }
  }

  /** In input with distinct links, an article is the last one with its own link. */
  lemma LastIndexDistinct(s: seq<Article>, k: int)
    requires DistinctLinks(s) && 0 <= k < |s|
    ensures HasLink(s, s[k].link) && LastIndex(s, s[k].link) == k
  {
    assert HasLink(s, s[k].link);
  }

  /** Input whose links are already distinct passes through both file sinks unchanged. */
  lemma DistinctInputUnchanged(s: seq<Article>)
    requires DistinctLinks(s)
    ensures KeepFirstByLink(s) == s
    ensures KeepLastByLink(s) == s
  {
    DistinctKeepFirstUnchanged(s);
    KeepLastLinks(s);
    var r := KeepLastByLink(s);
    assert Links(r) == Links(s);
    forall k | 0 <= k < |r| ensures r[k] == s[k] {
      assert r[k].link == Links(r)[k] == Links(s)[k] == s[k].link;
      LastIndexDistinct(s, k);
      KeepLastAt(s, k);
    }
  }
}
