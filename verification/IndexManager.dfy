/** The inverted index: keywords to documents in a B+-tree, and documents to keywords for re-indexing. */
module IndexManagement {
  import opened Collections
  import opened Sorting
  import opened Keys
  import opened TreeShape
  import opened TreeEntries
  import opened TreeScan
  import opened TreeHeight
  import opened BPlusTrees

  datatype Document = Document(docId: DocId, text: string)

  predicate IsKeywordChar(c: char) {
    'a' <= c <= 'z' || '0' <= c <= '9'
  }

  predicate IsKeyword(k: Key) {
    forall i :: 0 <= i < |k| ==> IsKeywordChar(k[i])
  }

  ghost predicate YieldsKeywords(tokenize: string -> set<Key>) {
    forall text, k :: k in tokenize(text) ==> IsKeyword(k)
  }

  /** The documents filed under a key. */
  function Filed(contents: map<Key, set<DocId>>, k: Key): set<DocId> {
    if k in contents then contents[k] else {}
  }

  lemma NoMembers()
    ensures Members<int>([]) == {}
  {
  }

  lemma Lengthened(list: seq<int>, x: int)
    requires Distinct(list) && x !in Members(list)
    ensures Distinct(list + [x]) && Members(list + [x]) == Members(list) + {x}
  {
    MembersOfSum(list, [x]);
  }

  /** The elements of a set, in ascending order. */
  method Listed(s: set<int>) returns (list: seq<int>)
    ensures Ascending(list) && Members(list) == s
  {
    hide Members;
    var rest := s;
    list := [];
    assert Members(list) == {} by {
      NoMembers();
    }
    while rest != {}
      invariant rest <= s && Members(list) == s - rest && Distinct(list)
      decreases rest
    {
      var x := Next(rest);
      Lengthened(list, x);
      rest := rest - {x};
      list := list + [x];
    }
    SortedAscends(list, list);
    list := SortAsc(list);
  }

  predicate Has(keywords: map<DocId, set<Key>>, d: DocId, k: Key) {
    d in keywords && k in keywords[d]
  }

  /** A document is filed under a key exactly when it has that keyword, and no key is left without documents. */
  ghost predicate Agrees(contents: map<Key, set<DocId>>, keywords: map<DocId, set<Key>>) {
    && (forall k, d {:trigger Has(keywords, d, k)} :: d in Filed(contents, k) <==> Has(keywords, d, k))
    && (forall k :: k in contents ==> contents[k] != {})
  }

  ghost predicate Tokenized(tokenize: string -> set<Key>, keywords: map<DocId, set<Key>>, texts: map<DocId, string>) {
    && keywords.Keys == texts.Keys
    && (forall d :: d in texts ==> keywords[d] == tokenize(texts[d]))
  }

  lemma TokenizedAfterSet(tokenize: string -> set<Key>, keywords: map<DocId, set<Key>>, texts: map<DocId, string>,
                          d: DocId, text: string)
    requires Tokenized(tokenize, keywords, texts)
    ensures Tokenized(tokenize, keywords[d := tokenize(text)], texts[d := text])
    ensures d !in texts ==> keywords - {d} == keywords && d !in keywords
  {
  }

  lemma AgreesAfterInsert(contents: map<Key, set<DocId>>, keywords: map<DocId, set<Key>>, d: DocId, some: set<Key>,
                          k: Key)
    requires Agrees(contents, keywords[d := some])
    ensures Agrees(contents[k := Filed(contents, k) + {d}], keywords[d := some + {k}])
  {
    var more := contents[k := Filed(contents, k) + {d}];
    forall k1, d1
      ensures d1 in Filed(more, k1) <==> Has(keywords[d := some + {k}], d1, k1)
    {
      assert Has(keywords[d := some], d1, k1) <==> d1 in Filed(contents, k1);
    }
    assert d in more[k];
  }

  /** What deleting one posting leaves of the tree's contents. */
  function Unfiled(contents: map<Key, set<DocId>>, k: Key, d: DocId): map<Key, set<DocId>>
    requires k in contents
  {
    if contents[k] == {d} then contents - {k} else contents[k := contents[k] - {d}]
  }

  lemma AgreesAfterDelete(contents: map<Key, set<DocId>>, keywords: map<DocId, set<Key>>, d: DocId, some: set<Key>,
                          k: Key)
    requires Agrees(contents, keywords[d := some]) && k in some
    ensures k in contents && d in contents[k]
    ensures Agrees(Unfiled(contents, k, d), keywords[d := some - {k}])
  {
    assert Has(keywords[d := some], d, k);
    var fewer := Unfiled(contents, k, d);
    forall k1, d1
      ensures d1 in Filed(fewer, k1) <==> Has(keywords[d := some - {k}], d1, k1)
    {
      assert Has(keywords[d := some], d1, k1) <==> d1 in Filed(contents, k1);
    }
    if contents[k] - {d} == {} {
      assert contents[k] == {d};
    }
  }

  /** Having no keywords is as good as not being indexed. */
  lemma AgreesWithNothing(contents: map<Key, set<DocId>>, keywords: map<DocId, set<Key>>, d: DocId)
    ensures Agrees(contents, keywords[d := {}]) <==> Agrees(contents, keywords - {d})
  {
    forall k, d1
      ensures Has(keywords[d := {}], d1, k) <==> Has(keywords - {d}, d1, k)
    {
    }
    AgreesAlike(contents, keywords[d := {}], keywords - {d});
    AgreesAlike(contents, keywords - {d}, keywords[d := {}]);
  }

  lemma AgreesAlike(contents: map<Key, set<DocId>>, keywords: map<DocId, set<Key>>, others: map<DocId, set<Key>>)
    requires forall k, d :: Has(keywords, d, k) <==> Has(others, d, k)
    ensures Agrees(contents, keywords) ==> Agrees(contents, others)
  {
    if Agrees(contents, keywords) {
      forall k, d
        ensures d in Filed(contents, k) <==> Has(others, d, k)
      {
        assert Has(keywords, d, k) <==> Has(others, d, k);
      }
    }
  }

  /** The documents, in the order given, whose text has the keyword. */
  function Matching(tokenize: string -> set<Key>, key: Key, documents: seq<Document>): seq<DocId> {
    if documents == [] then []
    else
      var last := |documents| - 1;
      Matching(tokenize, key, documents[..last]) +
      if key in tokenize(documents[last].text) then [documents[last].docId] else []
  }

  /** `documents` lists the current text of every indexed document, each once. */
  ghost predicate Current(texts: map<DocId, string>, documents: seq<Document>) {
    && (forall i, j :: 0 <= i < j < |documents| ==> documents[i].docId != documents[j].docId)
    && (forall i :: 0 <= i < |documents| ==>
        documents[i].docId in texts && documents[i].text == texts[documents[i].docId])
    && (forall d :: d in texts ==> exists i :: 0 <= i < |documents| && documents[i].docId == d)
  }

  lemma {:induction false} MatchingMembers(tokenize: string -> set<Key>, key: Key, documents: seq<Document>)
    ensures forall d :: d in Matching(tokenize, key, documents) <==>
              exists i :: 0 <= i < |documents| && documents[i].docId == d &&
                          key in tokenize(documents[i].text)
  {
    if documents != [] {
      MatchingMembers(tokenize, key, documents[..|documents| - 1]);
    }
  }

  lemma {:induction false} MatchingDistinct(tokenize: string -> set<Key>, key: Key, documents: seq<Document>)
    requires forall i, j :: 0 <= i < j < |documents| ==> documents[i].docId != documents[j].docId
    ensures Distinct(Matching(tokenize, key, documents))
  {
    if documents != [] {
      var rest := documents[..|documents| - 1];
      MatchingDistinct(tokenize, key, rest);
      MatchingMembers(tokenize, key, rest);
      assert forall k :: 0 <= k < |Matching(tokenize, key, rest)| ==>
             Matching(tokenize, key, rest)[k] in Matching(tokenize, key, rest);
    }
  }

  /** Ascending lists with the same members are the same list. */
  lemma {:induction false} AscendingIsUnique(s: seq<int>, t: seq<int>)
    requires Ascending(s) && Ascending(t) && Members(s) == Members(t)
    ensures s == t
  {
    assert |s| > 0 ==> s[0] in Members(s);
    assert |t| > 0 ==> t[0] in Members(t);
    if s != [] && t != [] {
      var i :| 0 <= i < |t| && t[i] == s[0];
      var j :| 0 <= j < |s| && s[j] == t[0];
      assert i == 0 && j == 0;
      assert Members(s[1..]) == Members(s) - {s[0]};
      assert Members(t[1..]) == Members(t) - {t[0]};
      AscendingIsUnique(s[1..], t[1..]);
    }
  }

  /** The list has every document whose text has the keyword, once, and no other. */
  ghost predicate ListsOnce(tokenize: string -> set<Key>, texts: map<DocId, string>, key: Key, list: seq<DocId>) {
    Distinct(list) && forall d :: d in list <==> d in texts && key in tokenize(texts[d])
  }

  lemma CurrentListsOnce(tokenize: string -> set<Key>, texts: map<DocId, string>, key: Key, documents: seq<Document>)
    ensures Current(texts, documents) ==> ListsOnce(tokenize, texts, key, Matching(tokenize, key, documents))
  {
    if Current(texts, documents) {
      MatchingMembers(tokenize, key, documents);
      MatchingDistinct(tokenize, key, documents);
    }
  }

  /** The two searches give the same list exactly if the scanned documents amount to the indexed ones. */
  lemma SameResults(tokenize: string -> set<Key>, texts: map<DocId, string>, key: Key,
                    indexed: seq<DocId>, scanned: seq<DocId>, matching: seq<DocId>)
    requires Ascending(indexed) && forall d :: d in indexed <==> d in texts && key in tokenize(texts[d])
    requires NonDecreasing(scanned) && multiset(scanned) == multiset(matching)
    ensures indexed == scanned <==> ListsOnce(tokenize, texts, key, matching)
  {
    OrderedAscends(scanned, matching);
    assert forall d :: d in matching <==> d in Members(matching);
    assert forall d :: d in scanned <==> d in Members(scanned);
    if ListsOnce(tokenize, texts, key, matching) {
      forall d
        ensures d in Members(indexed) <==> d in Members(scanned)
      {
        assert d in Members(indexed) <==> d in indexed;
      }
      AscendingIsUnique(indexed, scanned);
    }
  }

  /** Up to the last code unit, a range of keywords is exactly the keywords with a given prefix. */
  lemma {:induction false} PrefixIsRange(from: string, k: Key)
    requires IsKeyword(k)
    ensures from <= k <==> AtMost(At(from), At(k)) && AtMost(At(k), At(from + ['\U{FFFF}']))
  {
    LtTotal(from, k);
    LtTotal(k, from + ['\U{FFFF}']);
    if from != [] && k != [] && from[0] == k[0] {
      PrefixIsRange(from[1..], k[1..]);
      assert (from + ['\U{FFFF}'])[1..] == from[1..] + ['\U{FFFF}'];
      assert k == [k[0]] + k[1..] && from == [from[0]] + from[1..];
      assert from[1..] == k[1..] ==> from == k;
      assert from[1..] <= k[1..] <==> from <= k;
    } else if from == [] {
      assert k != [] ==> IsKeywordChar(k[0]);
    }
  }

  ghost predicate Mentioned(matches: seq<Entry>, d: DocId) {
    exists j :: 0 <= j < |matches| && d in matches[j].1
  }

  ghost predicate HasPrefixed(keywords: map<DocId, set<Key>>, d: DocId, from: string) {
    exists k :: Has(keywords, d, k) && from <= k
  }

  lemma PrefixOfText(tokenize: string -> set<Key>, keywords: map<DocId, set<Key>>, texts: map<DocId, string>,
                     d: DocId, from: string)
    requires Tokenized(tokenize, keywords, texts) && YieldsKeywords(tokenize)
    ensures HasPrefixed(keywords, d, from) <==> d in texts && exists k :: k in tokenize(texts[d]) && from <= k
    ensures forall k :: Has(keywords, d, k) ==> IsKeyword(k)
  {
    if d in texts {
      if k :| k in tokenize(texts[d]) && from <= k {
        assert Has(keywords, d, k);
      }
    }
  }

  lemma MentionedNext(matches: seq<Entry>, i: nat, d: DocId)
    requires i < |matches|
    ensures Mentioned(matches[..i + 1], d) <==> Mentioned(matches[..i], d) || d in matches[i].1
  {
    if d in matches[i].1 {
      assert matches[..i + 1][i] == matches[i];
    }
    if j :| 0 <= j < i && d in matches[..i][j].1 {
      assert matches[..i + 1][j] == matches[j];
    }
  }

  /** The postings in the range of a prefix hold exactly the documents with a keyword of that prefix. */
  lemma PrefixMatches(contents: map<Key, set<DocId>>, keywords: map<DocId, set<Key>>, from: string, matches: seq<Entry>,
                      d: DocId)
    requires Agrees(contents, keywords)
    requires forall k :: Has(keywords, d, k) ==> IsKeyword(k)
    requires forall e :: e in matches <==>
               e in contents.Items && AtMost(At(from), At(e.0)) && AtMost(At(e.0), At(from + ['\U{FFFF}']))
    ensures Mentioned(matches, d) <==> HasPrefixed(keywords, d, from)
  {
    hide AtMost;
    if j :| 0 <= j < |matches| && d in matches[j].1 {
      var e := matches[j];
      assert e in matches;
      assert d in Filed(contents, e.0) <==> Has(keywords, d, e.0);
      PrefixIsRange(from, e.0);
    }
    if k :| Has(keywords, d, k) && from <= k {
      PrefixIsRange(from, k);
      assert d in Filed(contents, k);
      assert (k, contents[k]) in contents.Items;
      assert (k, contents[k]) in matches;
    }
  }

  /** What a benchmark returns, apart from the times. */
  datatype BenchmarkReport = BenchmarkReport(
    keyword: string,
    documents: nat,
    iterations: nat,
    resultsMatch: bool,
    treeHeight: nat)

  class IndexManager {
    /** Keywords of a text, and the lower-case form of a query. */
    const tokenize: string -> set<Key>
    const lower: string -> string
    const tree: BPlusTree
    var documentKeywords: map<DocId, set<Key>>
    /** The text each document was last indexed with. */
    ghost var texts: map<DocId, string>

    ghost predicate Valid()
      reads this, tree
    {
      && tree.Valid()
      && Agrees(tree.contents, documentKeywords)
      && Tokenized(tokenize, documentKeywords, texts)
      && YieldsKeywords(tokenize)
    }

    constructor (order: nat, tokenize: string -> set<Key>, lower: string -> string)
      requires order >= 3
      requires YieldsKeywords(tokenize)
      ensures Valid() && texts == map[] && fresh(tree)
      ensures this.tokenize == tokenize && this.lower == lower
    {
      this.tokenize, this.lower := tokenize, lower;
      tree := new BPlusTree(order);
      documentKeywords, texts := map[], map[];
    }

    /** Files a document under the keywords of its text, in place of those of any earlier text. */
    method IndexDocument(docId: DocId, text: string) returns (count: nat)
      requires Valid()
      modifies this, tree
      ensures Valid() && texts == old(texts)[docId := text]
      ensures count == |tokenize(text)|
    {
      hide Agrees, YieldsKeywords, Ok, Entries, Tokenized, BPlusTree.Stores, BPlusTree.Valid;
      var postings := RemoveDocument(docId);
      var keywords := tokenize(text);
      ghost var others, done := documentKeywords, {};
      AgreesWithNothing(tree.contents, others, docId);
      TokenizedAfterSet(tokenize, others, texts, docId, text);
      var todo := keywords;
      while todo != {}
        invariant keywords == done + todo && tree.Valid()
        invariant documentKeywords == others && texts == old(texts) - {docId}
        invariant Agrees(tree.contents, others[docId := done])
        decreases todo
      {
        var keyword := Next(todo);
        AgreesAfterInsert(tree.contents, others, docId, done, keyword);
        tree.Insert(keyword, docId);
        done, todo := done + {keyword}, todo - {keyword};
      }
      assert done == keywords;
      documentKeywords := documentKeywords[docId := keywords];
      texts := texts[docId := text];
      assert texts == old(texts)[docId := text];
      count := |keywords|;
    }

    /** Drops every posting of a document. */
    method RemoveDocument(docId: DocId) returns (postings: nat)
      requires Valid()
      modifies this, tree
      ensures Valid() && texts == old(texts) - {docId} && docId !in documentKeywords
      ensures postings == if docId in old(texts) then |tokenize(old(texts)[docId])| else 0
    {
      hide Agrees, YieldsKeywords, Ok, Entries;
      if docId !in documentKeywords {
        assert texts - {docId} == texts;
        return 0;
      }
      var previous := documentKeywords[docId];
      var todo := previous;
      assert documentKeywords[docId := todo] == documentKeywords;
      while todo != {}
        invariant todo <= previous && tree.Valid()
        invariant documentKeywords == old(documentKeywords) && texts == old(texts)
        invariant Agrees(tree.contents, documentKeywords[docId := todo])
        decreases todo
      {
        var keyword := Next(todo);
        AgreesAfterDelete(tree.contents, documentKeywords, docId, todo, keyword);
        todo := todo - {keyword};
        var removed := tree.Delete(keyword, Some(docId));
      }
      AgreesWithNothing(tree.contents, documentKeywords, docId);
      documentKeywords := documentKeywords - {docId};
      texts := texts - {docId};
      postings := |previous|;
    }

    /** Indexed point lookup: the documents whose current text has the keyword. */
    method Search(keyword: string) returns (found: seq<DocId>)
      requires Valid()
      ensures Ascending(found)
      ensures forall d :: d in found <==> d in texts && lower(keyword) in tokenize(texts[d])
    {
      var key := lower(keyword);
      var docs, hops := tree.Search(key);
      assert docs == Filed(tree.contents, key);
      found := Listed(docs);
      hide BPlusTree.Valid;
      assert forall d :: d in found <==> d in Members(found);
      forall d
        ensures d in docs <==> d in texts && key in tokenize(texts[d])
      {
        assert d in docs <==> Has(documentKeywords, d, key);
      }
    }

    /** The unindexed baseline: looks for the keyword in every text. */
    method FullScan(keyword: string, documents: seq<Document>) returns (found: seq<DocId>)
      ensures NonDecreasing(found)
      ensures forall d :: d in found <==>
                exists i :: 0 <= i < |documents| && documents[i].docId == d &&
                            lower(keyword) in tokenize(documents[i].text)
      ensures multiset(found) == multiset(Matching(tokenize, lower(keyword), documents))
    {
      var key := lower(keyword);
      found := [];
      for i := 0 to |documents|
        invariant found == Matching(tokenize, key, documents[..i])
      {
        assert documents[..i + 1][..i] == documents[..i];
        if key in tokenize(documents[i].text) {
          found := found + [documents[i].docId];
        }
      }
      assert documents[..|documents|] == documents;
      MatchingMembers(tokenize, key, documents);
      SortAscSorts(found);
      SortAscKeeps(found);
      SameMembers(SortAsc(found), found);
      assert forall d :: d in SortAsc(found) <==> d in Members(SortAsc(found));
      assert forall d :: d in found <==> d in Members(found);
      found := SortAsc(found);
    }

    /** Runs both searches over and over and compares their last results. */
    method Benchmark(keyword: string, documents: seq<Document>, iterations: nat) returns (report: BenchmarkReport)
      requires Valid()
      ensures report.keyword == keyword && report.documents == |documents| && report.iterations == iterations
      ensures report.resultsMatch <==>
                iterations == 0 || ListsOnce(tokenize, texts, lower(keyword),
                                             Matching(tokenize, lower(keyword), documents))
      ensures Current(texts, documents) ==> report.resultsMatch
      ensures tree.Valid() && report.treeHeight == tree.spans[tree.root].ht + 1
      ensures report.treeHeight >= 2 ==> Pow(2, report.treeHeight) <= |tree.contents|
    {
      hide BPlusTree.Valid;
      var key := lower(keyword);
      ghost var matching := Matching(tokenize, key, documents);
      var indexed, scanned: seq<DocId> := [], [];
      for i := 0 to iterations
        invariant i == 0 ==> indexed == []
        invariant i > 0 ==> Ascending(indexed) && forall d :: d in indexed <==> d in texts && key in tokenize(texts[d])
      {
        indexed := Search(keyword);
      }
      for i := 0 to iterations
        invariant i == 0 ==> scanned == []
        invariant i > 0 ==> NonDecreasing(scanned) && multiset(scanned) == multiset(matching)
      {
        scanned := FullScan(keyword, documents);
      }
      if iterations > 0 {
        SameResults(tokenize, texts, key, indexed, scanned, matching);
      }
      CurrentListsOnce(tokenize, texts, key, documents);
      var height := tree.Height();
      report := BenchmarkReport(keyword, |documents|, iterations, indexed == scanned, height);
    }

    /** Indexed prefix search: the documents whose current text has a keyword with that prefix. */
    method SearchPrefix(prefix: string) returns (found: seq<DocId>)
      requires Valid()
      ensures Ascending(found)
      ensures lower(prefix) == "" ==> found == []
      ensures lower(prefix) != "" ==>
                forall d :: d in found <==> d in texts && exists k :: k in tokenize(texts[d]) && lower(prefix) <= k
    {
      hide Less, AtMost, Ok, Entries, Ascends, IsKeyword, HasPrefixed, Tokenized, YieldsKeywords, Agrees,
          BPlusTree.Stores;
      var from := lower(prefix);
      if from == "" {
        return [];
      }
      var matches := tree.RangeScan(from, from + ['\U{FFFF}']);
      var docIds: set<DocId> := {};
      assert matches[..0] == [];
      for i := 0 to |matches|
        invariant forall d :: d in docIds <==> Mentioned(matches[..i], d)
      {
        forall d
          ensures Mentioned(matches[..i + 1], d) <==> Mentioned(matches[..i], d) || d in matches[i].1
        {
          MentionedNext(matches, i, d);
        }
        docIds := docIds + matches[i].1;
      }
      assert matches[..|matches|] == matches;
      found := Listed(docIds);
      forall d
        ensures d in found <==> d in texts && exists k :: k in tokenize(texts[d]) && from <= k
      {
        PrefixOfText(tokenize, documentKeywords, texts, d, from);
        PrefixMatches(tree.contents, documentKeywords, from, matches, d);
        assert d in found <==> d in Members(found);
      }
    }
  }
}
