/**
 `build_corpus` and `build_mention_edges` of tools/build_wiki_graph.py: the n-gram index gives
 exactly the pairs a naive whole-word title search would give.
 */
module MentionEdges {
  import opened TitleTokens

  datatype Paragraph = Paragraph(id: int, title: string, text: string)

  /** A context entry of a question: title and joined sentences. */
  type Context = (string, string)

  /** `_norm_title`. */
  function NormTitle(title: string): string {
    Join(Tokens(title))
  }

  /** What `build_corpus` establishes: ids are positions, and keys lead back to their paragraph. */
  ghost predicate IsCorpus(ps: seq<Paragraph>, ids: map<string, int>) {
    && (forall i :: 0 <= i < |ps| ==> ps[i].id == i && NormTitle(ps[i].title) in ids && ids[NormTitle(ps[i].title)] == i)
    && (forall key :: key in ids ==> 0 <= ids[key] < |ps| && key == NormTitle(ps[ids[key]].title) && key != "")
  }

  /** Context `n` is the first with its title key, and the key is not empty. */
  ghost predicate IsFirst(contexts: seq<Context>, n: int) {
    && 0 <= n < |contexts| && NormTitle(contexts[n].0) != ""
    && forall m :: 0 <= m < n ==> NormTitle(contexts[m].0) != NormTitle(contexts[n].0)
  }

  /** The paragraphs are the first contexts of the title keys, title and text, in their order. */
  ghost predicate AreFirsts(ps: seq<Paragraph>, contexts: seq<Context>, from: seq<int>) {
    && |from| == |ps| && (forall i, j :: 0 <= i < j < |from| ==> from[i] < from[j])
    && (forall n :: n in from <==> IsFirst(contexts, n))
    && forall i :: 0 <= i < |ps| ==>
         0 <= from[i] < |contexts| && ps[i].title == contexts[from[i]].0 && ps[i].text == contexts[from[i]].1
  }

  /** `build_corpus`: the first paragraph of every title key, titles without tokens skipped. */
  method BuildCorpus(contexts: seq<Context>) returns (ps: seq<Paragraph>, ids: map<string, int>, ghost from: seq<int>)
    ensures IsCorpus(ps, ids) && AreFirsts(ps, contexts, from)
    ensures forall key :: key in ids <==> key != "" && exists n :: 0 <= n < |contexts| && NormTitle(contexts[n].0) == key
  {
    hide NormTitle;
    ps, ids, from := [], map[], [];
    for n := 0 to |contexts|
      invariant IsCorpus(ps, ids) && AreFirsts(ps, contexts[..n], from)
      invariant forall key :: key in ids <==> key != "" && exists m :: 0 <= m < n && NormTitle(contexts[m].0) == key
    {
      var (title, text) := contexts[n];
      var key := NormTitle(title);
      assert NormTitle(contexts[n].0) == key;
      FirstsNext(ps, contexts, from, n);
      if key == "" || key in ids {
        continue;
      }
      from := from + [n];
      ids := ids[key := |ps|];
      ps := ps + [Paragraph(|ps|, title, text)];
    }
    assert contexts[..|contexts|] == contexts;
  }

  lemma FirstsNext(ps: seq<Paragraph>, contexts: seq<Context>, from: seq<int>, n: nat)
    requires n < |contexts| && AreFirsts(ps, contexts[..n], from)
    ensures if IsFirst(contexts, n)
            then forall p: Paragraph :: p.title == contexts[n].0 && p.text == contexts[n].1 ==>
                   AreFirsts(ps + [p], contexts[..n + 1], from + [n])
            else AreFirsts(ps, contexts[..n + 1], from)
  {
    hide NormTitle;
    forall m ensures IsFirst(contexts[..n + 1], m) <==> if m == n then IsFirst(contexts, n) else IsFirst(contexts[..n], m) {
    }
    assert forall i :: 0 <= i < |from| ==> from[i] in from && from[i] < n;
  }

  predicate OccursAt(title: seq<string>, toks: seq<string>, i: int) {
    0 <= i && i + |title| <= |toks| && toks[i..i + |title|] == title
  }

  /** The token list `title` occurs contiguously in `toks`. */
  ghost predicate Occurs(title: seq<string>, toks: seq<string>) {
    exists i :: OccursAt(title, toks, i)
  }

  /** The naive definition of an edge: B is another paragraph whose title is long enough and is mentioned in A's text. */
  ghost predicate Mentions(ps: seq<Paragraph>, minTokens: int, a: int, b: int) {
    && 0 <= a < |ps| && 0 <= b < |ps| && a != b
    && |Tokens(ps[b].title)| >= minTokens
    && Occurs(Tokens(ps[b].title), Tokens(ps[a].text))
  }

  /** `by_key`: the titles long enough to be looked for. */
  function ByKey(ids: map<string, int>, minTokens: int): map<string, int> {
    map key | key in ids && |Split(key)| >= minTokens :: ids[key]
  }

  /** `maxlen` over a nonempty dictionary. */
  method MaxLen(byKey: map<string, int>) returns (m: nat)
    requires byKey.Keys != {}
    ensures forall key :: key in byKey ==> |Split(key)| <= m
  {
    m := 0;
    var rest := byKey.Keys;
    while rest != {}
      invariant rest <= byKey.Keys && forall key :: key in byKey && key !in rest ==> |Split(key)| <= m
      decreases rest
    {
      var key :| key in rest;
      if |Split(key)| > m {
        m := |Split(key)|;
      }
      rest := rest - {key};
    }
  }

  lemma KeyLength(title: string)
    ensures |Split(NormTitle(title))| == |Tokens(title)|
  {
    SplitJoin(Tokens(title));
  }

  /** The n-gram of `toks` at `i` is the key of `title` exactly when the title's tokens stand there. */
  lemma GramIsTitle(toks: seq<string>, i: int, n: int, title: string)
    requires forall j :: 0 <= j < |toks| ==> IsToken(toks[j])
    requires 0 <= i && 0 <= n && i + n <= |toks|
    ensures Join(toks[i..i + n]) == NormTitle(title) <==> toks[i..i + n] == Tokens(title)
  {
    JoinInjective(toks[i..i + n], Tokens(title));
  }

  /** Paragraph `a` has a gram of `n` tokens at `i` that is the key of another paragraph, `b`. */
  ghost predicate Hit(ps: seq<Paragraph>, byKey: map<string, int>, a: int, n: int, i: int, b: int) {
    && 0 <= a < |ps| && a != b
    && var toks := Tokens(ps[a].text);
       0 <= i && 1 <= n && i + n <= |toks| && Join(toks[i..i + n]) in byKey && byKey[Join(toks[i..i + n])] == b
  }

  /** A hit is a mention, and every mention is a hit at its title's own length. */
  lemma HitIsMention(ps: seq<Paragraph>, ids: map<string, int>, minTokens: int, a: int, n: int, i: int, b: int)
    requires IsCorpus(ps, ids) && Hit(ps, ByKey(ids, minTokens), a, n, i, b)
    ensures Mentions(ps, minTokens, a, b)
  {
    hide Tokens, Join, Split;
    var toks := Tokens(ps[a].text);
    var key := Join(toks[i..i + n]);
    assert key == NormTitle(ps[b].title);
    GramIsTitle(toks, i, n, ps[b].title);
    KeyLength(ps[b].title);
    assert OccursAt(Tokens(ps[b].title), toks, i);
  }

  lemma MentionIsHit(ps: seq<Paragraph>, ids: map<string, int>, minTokens: int, a: int, b: int) returns (n: nat, i: nat)
    requires IsCorpus(ps, ids) && Mentions(ps, minTokens, a, b)
    ensures Hit(ps, ByKey(ids, minTokens), a, n, i, b) && n == |Split(NormTitle(ps[b].title))|
    ensures NormTitle(ps[b].title) in ByKey(ids, minTokens)
  {
    hide Tokens, Split;
    var toks, title := Tokens(ps[a].text), ps[b].title;
    var at :| OccursAt(Tokens(title), toks, at);
    n, i := |Tokens(title)|, at;
    KeyLength(title);
    TitleHasTokens(ps, ids, b);
    hide Join;
    assert Join(toks[i..i + n]) == NormTitle(title);
  }

  lemma TitleHasTokens(ps: seq<Paragraph>, ids: map<string, int>, b: int)
    requires IsCorpus(ps, ids) && 0 <= b < |ps|
    ensures |Tokens(ps[b].title)| >= 1
  {
  }

  /** The pairs found so far: every mention from paragraphs before `a`, and from `a` the grams scanned. */
  ghost predicate Found(ps: seq<Paragraph>, byKey: map<string, int>, edges: seq<(int, int)>, a: int, n: int, i: int) {
    && (forall p, q :: 0 <= p < q < |edges| ==> edges[p] != edges[q])
    && (forall e :: e in edges ==> exists m, j :: Hit(ps, byKey, e.0, m, j, e.1))
    && (forall b, c, m, j :: Hit(ps, byKey, b, m, j, c) && Before(b, m, j, a, n, i) ==> (b, c) in edges)
  }

  /** The order in which the three nested loops visit paragraph, gram length and position. */
  predicate Before(b: int, m: int, j: int, a: int, n: int, i: int) {
    b < a || (b == a && (m < n || (m == n && j < i)))
  }

  /** One gram: looked up, checked against the own paragraph, added unless already there. */
  method TryGram(ghost ps: seq<Paragraph>, byKey: map<string, int>, para: Paragraph, own: int, toks: seq<string>, n: int,
                 i: int, edges: seq<(int, int)>, seen: set<(int, int)>)
    returns (edges': seq<(int, int)>, seen': set<(int, int)>)
    requires 0 <= para.id < |ps| && ps[para.id] == para && own == para.id && toks == Tokens(para.text)
    requires 1 <= n && 0 <= i && i + n <= |toks|
    requires seen == (set e | e in edges) && Found(ps, byKey, edges, para.id, n, i)
    ensures seen' == (set e | e in edges') && Found(ps, byKey, edges', para.id, n, i + 1)
  {
    hide Tokens, Join;
    edges', seen' := edges, seen;
    var gram := Join(toks[i..i + n]);
    if gram !in byKey || byKey[gram] == own {
      return;
    }
    var e := (para.id, byKey[gram]);
    assert Hit(ps, byKey, e.0, n, i, e.1);
    if e !in seen {
      seen' := seen + {e};
      edges' := edges + [e];
    }
  }

  lemma HitLength(ps: seq<Paragraph>, byKey: map<string, int>, a: int, n: int, i: int, b: int, maxLen: nat)
    requires Hit(ps, byKey, a, n, i, b) && forall key :: key in byKey ==> |Split(key)| <= maxLen
    ensures n <= maxLen && i + n <= |Tokens(ps[a].text)|
  {
    var toks := Tokens(ps[a].text);
    SplitJoin(toks[i..i + n]);
  }

  /** All positions of a length done: on to the next length. */
  lemma NextLength(ps: seq<Paragraph>, byKey: map<string, int>, edges: seq<(int, int)>, a: int, n: int)
    requires 0 <= a < |ps| && Found(ps, byKey, edges, a, n, |Tokens(ps[a].text)| - n + 1)
    ensures Found(ps, byKey, edges, a, n + 1, 0)
  {
  }

  /** No longer gram can hit: on to the next paragraph. */
  lemma NextParagraph(ps: seq<Paragraph>, byKey: map<string, int>, edges: seq<(int, int)>, a: int, n: int, maxLen: nat)
    requires 0 <= a < |ps| && Found(ps, byKey, edges, a, n, 0)
    requires forall key :: key in byKey ==> |Split(key)| <= maxLen
    requires n > maxLen || n > |Tokens(ps[a].text)|
    ensures Found(ps, byKey, edges, a + 1, 1, 0)
  {
    forall b, c, m, j | Hit(ps, byKey, b, m, j, c) && Before(b, m, j, a + 1, 1, 0) ensures (b, c) in edges {
      HitLength(ps, byKey, b, m, j, c, maxLen);
    }
    hide Hit;
  }

  /** `build_mention_edges`: no pair twice, and exactly the mentions. */
  method BuildMentionEdges(ps: seq<Paragraph>, ids: map<string, int>, minTokens: int) returns (edges: seq<(int, int)>)
    requires IsCorpus(ps, ids)
    ensures forall p, q :: 0 <= p < q < |edges| ==> edges[p] != edges[q]
    ensures forall a, b :: (a, b) in edges <==> Mentions(ps, minTokens, a, b)
  {
    hide Found, Hit, Tokens, Mentions;
    var byKey := ByKey(ids, minTokens);
    edges := [];
    NothingFound(ps, byKey);
    if byKey.Keys != {} {
      var maxLen := MaxLen(byKey);
      edges := ScanAll(ps, ids, byKey, maxLen);
      AllFound(ps, ids, minTokens, edges);
    } else {
      NoTitles(ps, ids, minTokens);
    }
  }

  lemma NothingFound(ps: seq<Paragraph>, byKey: map<string, int>)
    ensures Found(ps, byKey, [], 0, 1, 0)
  {
  }

  lemma NoTitles(ps: seq<Paragraph>, ids: map<string, int>, minTokens: int)
    requires IsCorpus(ps, ids) && ByKey(ids, minTokens).Keys == {}
    ensures forall a, b :: !Mentions(ps, minTokens, a, b)
  {
    forall a, b ensures !Mentions(ps, minTokens, a, b) {
      if Mentions(ps, minTokens, a, b) {
        var n, i := MentionIsHit(ps, ids, minTokens, a, b);
        assert false;
      }
    }
  }

  lemma AllFound(ps: seq<Paragraph>, ids: map<string, int>, minTokens: int, edges: seq<(int, int)>)
    requires IsCorpus(ps, ids) && Found(ps, ByKey(ids, minTokens), edges, |ps|, 1, 0)
    ensures forall p, q :: 0 <= p < q < |edges| ==> edges[p] != edges[q]
    ensures forall a, b :: (a, b) in edges <==> Mentions(ps, minTokens, a, b)
  {
    hide Mentions;
    forall a, b ensures (a, b) in edges <==> Mentions(ps, minTokens, a, b) {
      if (a, b) in edges {
        var n, i :| Hit(ps, ByKey(ids, minTokens), (a, b).0, n, i, (a, b).1);
        HitIsMention(ps, ids, minTokens, a, n, i, b);
      }
      if Mentions(ps, minTokens, a, b) {
        var n, i := MentionIsHit(ps, ids, minTokens, a, b);
        assert Before(a, n, i, |ps|, 1, 0);
      }
    }
  }

  /** The three nested loops. */
  method ScanAll(ps: seq<Paragraph>, ids: map<string, int>, byKey: map<string, int>, maxLen: nat)
    returns (edges: seq<(int, int)>)
    requires IsCorpus(ps, ids) && forall key :: key in byKey ==> |Split(key)| <= maxLen
    ensures Found(ps, byKey, edges, |ps|, 1, 0)
  {
    hide Found, Hit, Tokens, Join;
    edges := [];
    var seen: set<(int, int)> := {};
    NothingFound(ps, byKey);
    for a := 0 to |ps|
      invariant seen == (set e | e in edges) && Found(ps, byKey, edges, a, 1, 0)
    {
      var para := ps[a];
      edges, seen := ScanParagraph(ps, byKey, para, ids[NormTitle(para.title)], maxLen, edges, seen);
    }
  }

  method ScanParagraph(ps: seq<Paragraph>, byKey: map<string, int>, para: Paragraph, own: int, maxLen: nat,
                       edges: seq<(int, int)>, seen: set<(int, int)>)
    returns (edges': seq<(int, int)>, seen': set<(int, int)>)
    requires 0 <= para.id < |ps| && ps[para.id] == para && own == para.id
    requires forall key :: key in byKey ==> |Split(key)| <= maxLen
    requires seen == (set e | e in edges) && Found(ps, byKey, edges, para.id, 1, 0)
    ensures seen' == (set e | e in edges') && Found(ps, byKey, edges', para.id + 1, 1, 0)
  {
    hide Found, Hit, Tokens, Join;
    var toks := Tokens(para.text);
    edges', seen' := edges, seen;
    var n := 1;
    while n <= maxLen
      invariant n >= 1 && seen' == (set e | e in edges') && Found(ps, byKey, edges', para.id, n, 0)
    {
      if n > |toks| {
        break;
      }
      for i := 0 to |toks| - n + 1
        invariant seen' == (set e | e in edges') && Found(ps, byKey, edges', para.id, n, i)
      {
        edges', seen' := TryGram(ps, byKey, para, own, toks, n, i, edges', seen');
      }
      NextLength(ps, byKey, edges', para.id, n);
      n := n + 1;
    }
    NextParagraph(ps, byKey, edges', para.id, n, maxLen);
  }
}
