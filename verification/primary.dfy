/** The primary path, `extract_article`: newspaper3k's baseline summary is
    extended with further sentences of the article, in article order, until it
    holds ten sentences. */
module Primary {
  import opened Options
  import opened Seqs
  import opened Text
  import opened Articles

  /** The sentence count the extended summary grows to. */
  const SummaryCap: nat := 10

  /** How many sentences may still be appended to a summary of `n` sentences. */
  function Room(n: nat): nat {
    if n >= SummaryCap then 0 else SummaryCap - n
  }

  /** The reference for what may be appended: the distinct sentences of `src`
      that are not in `excluded`, each once, in the order of their first
      occurrence in `src`. */
  function Fresh(src: seq<string>, excluded: set<string>): seq<string>
    decreases |src|
  {
    if src == [] then []
    else if src[0] in excluded then Fresh(src[1..], excluded)
    else [src[0]] + Fresh(src[1..], excluded + {src[0]})
  }

  /** `Fresh` holds exactly the source sentences outside `excluded`, each once. */
  lemma {:induction false} FreshMembers(src: seq<string>, excluded: set<string>)
    ensures forall x :: x in Fresh(src, excluded) <==> x in src && x !in excluded
    ensures NoDups(Fresh(src, excluded))
    decreases |src|
  {
    if src != [] {
      var x, rest := src[0], src[1..];
      assert src == [x] + rest;
      if x in excluded {
        FreshMembers(rest, excluded);
      } else {
        FreshMembers(rest, excluded + {x});
      }
    }
  }

  /** The declared outcome of the extension: the first `Room(|base|)`
      sentences of `Fresh(src, Elems(base))`. */
  function FreshTail(base: seq<string>, src: seq<string>): seq<string> {
    var f := Fresh(src, Elems(base));
    f[..Min(Room(|base|), |f|)]
  }

  /** The extension loop, one source sentence at a time: `ext` is the summary
      built so far, `seen` the membership set kept beside it and `rest` the
      source sentences not yet visited. A sentence is appended when it is not
      in `seen` and the summary is still below the cap. */
  function ExtendFrom(ext: seq<string>, seen: set<string>, rest: seq<string>): seq<string>
    decreases |rest|
  {
    if rest == [] then ext
    else if rest[0] !in seen && |ext| < SummaryCap then
      ExtendFrom(ext + [rest[0]], seen + {rest[0]}, rest[1..])
    else
      ExtendFrom(ext, seen, rest[1..])
  }

  /** The extended sentence list of `extract_article`: start from the baseline
      summary's sentences and the set of them, then visit every source sentence. */
  function ExtendedSentences(base: seq<string>, src: seq<string>): seq<string> {
    ExtendFrom(base, Elems(base), src)
  }

  /** The loop appends exactly the reference tail, whatever state it starts in. */
  lemma {:induction false} ExtendFromFresh(ext: seq<string>, seen: set<string>, rest: seq<string>)
    ensures ExtendFrom(ext, seen, rest)
         == ext + Fresh(rest, seen)[..Min(Room(|ext|), |Fresh(rest, seen)|)]
    decreases |rest|
  {
    if rest != [] {
      var x, rest' := rest[0], rest[1..];
      if x in seen {
        assert Fresh(rest, seen) == Fresh(rest', seen);
        assert ExtendFrom(ext, seen, rest) == ExtendFrom(ext, seen, rest');
        ExtendFromFresh(ext, seen, rest');
      } else if |ext| < SummaryCap {
        var f' := Fresh(rest', seen + {x});
        assert Fresh(rest, seen) == [x] + f';
        assert ExtendFrom(ext, seen, rest) == ExtendFrom(ext + [x], seen + {x}, rest');
        ExtendFromFresh(ext + [x], seen + {x}, rest');
        var k := Min(Room(|ext| + 1), |f'|);
        assert Min(Room(|ext|), |f'| + 1) == k + 1;
        TakeCons(ext, x, f', k);
      } else {
        assert Room(|ext|) == 0;
        assert ExtendFrom(ext, seen, rest) == ExtendFrom(ext, seen, rest');
        ExtendFromFresh(ext, seen, rest');
      }
    }
  }

  lemma ExtendedSentencesSpec(base: seq<string>, src: seq<string>)
    ensures ExtendedSentences(base, src) == base + FreshTail(base, src)
  {
    ExtendFromFresh(base, Elems(base), src);
  }

  /** The loop of `extract_article` written as a loop over the source
      sentences: copy the baseline, keep a set of what the summary holds, and
      append each unseen sentence while fewer than ten are held. */
  method BuildExtendedSentences(summarySentences: seq<string>, sentences: seq<string>)
    returns (extended: seq<string>)
    ensures extended == summarySentences + FreshTail(summarySentences, sentences)
  {
    extended := summarySentences;
    var seen := Elems(summarySentences);
    for i := 0 to |sentences|
      invariant ExtendFrom(extended, seen, sentences[i..])
             == ExtendedSentences(summarySentences, sentences)
    {
      assert sentences[i..][1..] == sentences[i + 1..];
      var sentence := sentences[i];
      if sentence !in seen && |extended| < SummaryCap {
        extended := extended + [sentence];
        seen := seen + {sentence};
      }
    }
    ExtendedSentencesSpec(summarySentences, sentences);
  }

  /** Positions found in `rest` move up by one in `[x] + rest`, and stay first
      occurrences when `x` is not among the elements found. */
  lemma ShiftPositions(x: string, rest: seq<string>, sub: seq<string>, idx: seq<nat>)
    returns (shifted: seq<nat>)
    requires SubsequenceAt(sub, rest, idx) && FirstOccurrences(rest, idx)
    requires x !in sub
    ensures SubsequenceAt(sub, [x] + rest, shifted) && FirstOccurrences([x] + rest, shifted)
    ensures forall k :: 0 <= k < |shifted| ==> shifted[k] == idx[k] + 1
  {
    var src := [x] + rest;
    shifted := seq(|idx|, k requires 0 <= k < |idx| => idx[k] + 1);
    forall k | 0 <= k < |shifted|
      ensures shifted[k] < |src| && sub[k] == src[shifted[k]]
      ensures src[shifted[k]] !in src[..shifted[k]]
    {
      assert src[shifted[k]] == rest[idx[k]] == sub[k];
      assert sub[k] in sub;
      assert src[..shifted[k]] == [x] + rest[..idx[k]];
    }
  }

  /** Every sentence of `Fresh` is taken at its first occurrence in the source,
      and they appear in source order. */
  lemma {:induction false} FreshPositions(src: seq<string>, excluded: set<string>)
    returns (idx: seq<nat>)
    ensures SubsequenceAt(Fresh(src, excluded), src, idx)
    ensures FirstOccurrences(src, idx)
    decreases |src|
  {
    if src == [] {
      idx := [];
    } else {
      var x, rest := src[0], src[1..];
      assert src == [x] + rest;
      if x in excluded {
        var idx' := FreshPositions(rest, excluded);
        FreshMembers(rest, excluded);
        idx := ShiftPositions(x, rest, Fresh(rest, excluded), idx');
      } else {
        var f' := Fresh(rest, excluded + {x});
        var idx' := FreshPositions(rest, excluded + {x});
        FreshMembers(rest, excluded + {x});
        var shifted := ShiftPositions(x, rest, f', idx');
        assert Fresh(src, excluded) == [x] + f';
        idx := [0] + shifted;
        assert forall k :: 1 <= k < |idx| ==> idx[k] == shifted[k - 1];
      }
    }
  }

  /** The baseline summary's sentences are kept unchanged at the front,
      duplicates included, and nothing is appended once it holds ten. */
  lemma ExtendKeepsBaseline(base: seq<string>, src: seq<string>)
    ensures |ExtendedSentences(base, src)| >= |base|
    ensures ExtendedSentences(base, src)[..|base|] == base
    ensures |base| >= SummaryCap ==> ExtendedSentences(base, src) == base
    ensures Join(" ", base) <= Join(" ", ExtendedSentences(base, src))
  {
    ExtendedSentencesSpec(base, src);
    JoinPrefix(" ", base, FreshTail(base, src));
  }

  /** Every appended sentence comes from the source, none was in the baseline,
      and none is appended twice. */
  lemma ExtendAppendsFreshSentences(base: seq<string>, src: seq<string>)
    ensures |ExtendedSentences(base, src)| >= |base|
    ensures forall i :: |base| <= i < |ExtendedSentences(base, src)| ==>
              ExtendedSentences(base, src)[i] in src && ExtendedSentences(base, src)[i] !in base
    ensures NoDups(ExtendedSentences(base, src)[|base|..])
  {
    var ext := ExtendedSentences(base, src);
    ExtendedSentencesSpec(base, src);
    var tail := FreshTail(base, src);
    var f := Fresh(src, Elems(base));
    FreshMembers(src, Elems(base));
    assert ext[|base|..] == tail;
    forall i | |base| <= i < |ext|
      ensures ext[i] in src && ext[i] !in base
    {
      assert ext[i] == tail[i - |base|] == f[i - |base|];
      assert f[i - |base|] in f;
    }
  }

  /** The appended sentences are a subsequence of the source sentences, each
      taken at its first occurrence. */
  lemma ExtendFollowsSourceOrder(base: seq<string>, src: seq<string>)
    returns (idx: seq<nat>)
    ensures |ExtendedSentences(base, src)| >= |base|
    ensures SubsequenceAt(ExtendedSentences(base, src)[|base|..], src, idx)
    ensures FirstOccurrences(src, idx)
  {
    ExtendedSentencesSpec(base, src);
    var f := Fresh(src, Elems(base));
    var all := FreshPositions(src, Elems(base));
    var n := Min(Room(|base|), |f|);
    idx := all[..n];
    assert ExtendedSentences(base, src)[|base|..] == f[..n];
  }

  /** The extended summary has ten sentences, or fewer when the source runs out
      of distinct new sentences: `min(10, |base| + D)` with `D` the number of
      distinct source sentences not in the baseline; a baseline of ten or more
      is left as it is. The tail is the first such sentences. */
  lemma ExtendLength(base: seq<string>, src: seq<string>)
    ensures var d := |Elems(src) - Elems(base)|;
            |ExtendedSentences(base, src)|
              == if |base| >= SummaryCap then |base| else Min(SummaryCap, |base| + d)
    ensures ExtendedSentences(base, src)[|base|..] <= Fresh(src, Elems(base))
  {
    ExtendedSentencesSpec(base, src);
    var f := Fresh(src, Elems(base));
    FreshMembers(src, Elems(base));
    assert Elems(f) == Elems(src) - Elems(base);
    NoDupsCard(f);
  }

  /** `extract_article`: `None` when newspaper3k raised; otherwise the record
      with the parsed title, text and keywords and the extended summary. */
  function ExtractArticle(parsed: Option<ParsedArticle>, tokenize: Tokenizer): (r: Option<ArticleRecord>)
    ensures r.Some? <==> parsed.Some?
    ensures r.Some? ==> && r.value.title == parsed.value.title
                        && r.value.text == parsed.value.text
                        && r.value.keywords == parsed.value.keywords
    ensures r.Some? && parsed.value.text == [] ==> r.value.summary == parsed.value.summary
    ensures r.Some? && parsed.value.text != [] ==>
              var base := tokenize(parsed.value.summary);
              r.value.summary == Join(" ", base + FreshTail(base, tokenize(parsed.value.text)))
  {
    match parsed
    case None => None
    case Some(article) =>
      var summary :=
        if article.text != [] then
          var base := tokenize(article.summary);
          var src := tokenize(article.text);
          ExtendedSentencesSpec(base, src);
          Join(" ", ExtendedSentences(base, src))
        else
          article.summary;
      Some(ArticleRecord(article.title, article.text, summary, article.keywords))
  }

  /** The returned summary text starts with the baseline summary: verbatim
      when the article text is empty, and as its space-joined sentences
      otherwise. */
  lemma ExtractArticleKeepsBaseline(article: ParsedArticle, tokenize: Tokenizer)
    ensures var r := ExtractArticle(Some(article), tokenize).value;
            if article.text == [] then r.summary == article.summary
            else Join(" ", tokenize(article.summary)) <= r.summary
  {
    if article.text != [] {
      ExtendKeepsBaseline(tokenize(article.summary), tokenize(article.text));
    }
  }

  /** The scenario of a three-sentence article whose baseline summary is its
      second sentence: the extended summary is the second sentence followed by
      the first and the third. */
  lemma ThreeSentenceScenario(tokenize: Tokenizer, s1: string, s2: string, s3: string)
    requires s1 != s2 && s2 != s3 && s1 != s3
    requires tokenize("body") == [s1, s2, s3] && tokenize("baseline") == [s2]
    ensures ExtractArticle(Some(ParsedArticle("t", "body", "baseline", [])), tokenize).value.summary
         == s2 + " " + s1 + " " + s3
  {
    var base := [s2];
    var src := [s1, s2, s3];
    assert Elems(base) == {s2};
    assert src[1..] == [s2, s3] && src[1..][1..] == [s3];
    assert Fresh([s3], {s2, s1}) == [s3] by {
      assert [s3][1..] == [];
    }
    assert Fresh([s2, s3], {s2, s1}) == [s3];
    assert {s2} + {s1} == {s2, s1};
    assert Fresh(src, {s2}) == [s1] + Fresh([s2, s3], {s2, s1});
    assert Fresh(src, {s2}) == [s1, s3];
    assert FreshTail(base, src) == [s1, s3];
    var ext := base + [s1, s3];
    assert ext == [s2, s1, s3];
    ExtendedSentencesSpec(base, src);
    assert ext[1..] == [s1, s3] && ext[1..][1..] == [s3];
    assert Join(" ", [s1, s3]) == s1 + " " + s3;
    assert Join(" ", ext) == s2 + " " + (s1 + " " + s3);
  }
}
