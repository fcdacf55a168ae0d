/** The keyword evaluator, `check_keywords`: which of a list of keywords
    occur, ignoring case, in a page's text. */
module Keywords {
  import opened Wrappers
  import opened Seqs
  import opened Text

  /** A Python dict from keyword to presence. `keys` is the dict's
      insertion order, `found` its contents. */
  datatype PresenceMap = PresenceMap(keys: seq<string>, found: map<string, bool>) {

    /** The keys are listed once each, and exactly the keys of `found`. */
    ghost predicate Valid()
    {
      Distinct(keys) && forall kw :: kw in found <==> kw in keys
    }

    /** `d[kw] = v`: a new key goes to the end, an existing key keeps its
        place and takes the new value. */
    function Put(kw: string, v: bool): (m: PresenceMap)
      ensures m.found == found[kw := v]
      ensures Valid() ==> m.Valid()
      ensures kw in found ==> m.keys == keys
      ensures kw !in found ==> m.keys == keys + [kw]
    {
      PresenceMap(if kw in found then keys else keys + [kw], found[kw := v])
    }

    /** `d.get(kw) is True`. */
    predicate IsTrue(kw: string)
    {
      kw in found && found[kw]
    }
  }

  const EmptyMap := PresenceMap([], map[])

  /** `kw.lower() in text.lower()`. */
  predicate Matches(text: string, kw: string)
    ensures Matches(text, kw) ==> |kw| <= |text|
    ensures kw == [] ==> Matches(text, kw)
  {
    Contains(Lower(text), Lower(kw))
  }

  /** What `check_keywords(text, keywords)` returns: one entry per distinct
      keyword, in the order the keywords are first listed, telling whether
      it occurs in the text. */
  function Evaluate(text: string, keywords: seq<string>): (m: PresenceMap)
    ensures m.Valid()
    ensures forall kw :: kw in m.found <==> kw in keywords
    ensures forall kw :: kw in m.found ==> (m.found[kw] <==> Matches(text, kw))
    ensures forall i, j :: 0 <= i < j < |m.keys| ==> FirstIndex(keywords, m.keys[i]) < FirstIndex(keywords, m.keys[j])
  {
    DedupFirstOccurrenceOrder(keywords);
    PresenceMap(Dedup(keywords), map kw | kw in keywords :: Matches(text, kw))
  }

  /** `check_keywords`: fills the dict one keyword at a time. `None` for
      the keyword list is treated as the empty list. */
  method CheckKeywords(text: string, keywords: Option<seq<string>>) returns (found: PresenceMap)
    ensures found == Evaluate(text, keywords.GetOr([]))
  {
    var kws := keywords.GetOr([]);
    var lower := Lower(text);
    found := EmptyMap;
    for i := 0 to |kws|
      invariant found == Evaluate(text, kws[..i])
    {
      var kw := kws[i];
      if Contains(lower, Lower(kw)) {
        found := found.Put(kw, true);
      } else {
        found := found.Put(kw, false);
      }
      assert kws[..i + 1] == kws[..i] + [kw];
      EvaluateSnoc(text, kws[..i], kw);
    }
    assert kws[..|kws|] == kws;
  }

  /** Evaluating one more keyword is one more dict assignment. */
  lemma EvaluateSnoc(text: string, kws: seq<string>, kw: string)
    ensures Evaluate(text, kws + [kw]) == Evaluate(text, kws).Put(kw, Matches(text, kw))
  {
    var s := kws + [kw];
    assert s[..|s| - 1] == kws;
    assert Dedup(s) == if kw in Dedup(kws) then Dedup(kws) else Dedup(kws) + [kw];
    var found := map k | k in kws :: Matches(text, k);
    assert (map k | k in s :: Matches(text, k)) == found[kw := Matches(text, kw)];
  }

  /** No keywords give the empty dict; `CheckKeywords` treats a `None`
      keyword list as the empty list, so `None` gives it too. */
  lemma EvaluateNoKeywords(text: string)
    ensures Evaluate(text, []) == EmptyMap
  {
    assert (map kw | kw in [] :: Matches(text, kw)) == map[];
  }

  /** Matching ignores case: lower-casing the text or the keyword first
      makes no difference. */
  lemma MatchIgnoresCase(text: string, kw: string)
    ensures Matches(Lower(text), kw) == Matches(text, kw)
    ensures Matches(text, Lower(kw)) == Matches(text, kw)
  {
    LowerIdempotent(text);
    LowerIdempotent(kw);
  }

  /** A keyword matches exactly when its lower-cased form occurs at some
      position of the lower-cased text; in particular the empty keyword
      always matches. */
  lemma MatchesIffOccurs(text: string, kw: string)
    ensures Matches(text, kw) <==> exists i :: OccursAt(Lower(text), Lower(kw), i)
    ensures Matches(text, "")
  {
    ContainsIffOccurs(Lower(text), Lower(kw));
    assert IsPrefix(Lower(""), Lower(text));
  }

  /** `check_keywords("FOO bar", ["foo"]) == {"foo": True}`. */
  lemma EvaluateExample()
    ensures Evaluate("FOO bar", ["foo"]) == PresenceMap(["foo"], map["foo" := true])
  {
    var t := Lower("FOO bar");
    assert t[0] == 'f' && t[1] == 'o' && t[2] == 'o';
    assert t[..3] == "foo";
    var k := Lower("foo");
    assert k[0] == 'f' && k[1] == 'o' && k[2] == 'o';
    assert k == "foo";
    assert IsPrefix(k, t);
    assert Matches("FOO bar", "foo");
    assert ["foo"][..0] == [];
    assert Dedup(["foo"]) == ["foo"];
    var m := map kw | kw in ["foo"] :: Matches("FOO bar", kw);
    assert m.Keys == {"foo"};
    assert m == map["foo" := true];
  }
}
