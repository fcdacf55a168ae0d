/** Recipient lists: the comma-separated lists of tokens or user ids read
    from the environment, and the merge of the stored recipient ids with
    the supplementary ones. */
module Recipients {
  import opened Seqs
  import opened Text

  /** `[p.strip() for p in ps]`. */
  function StripAll(ps: seq<string>): (r: seq<string>)
    ensures |r| == |ps|
    ensures forall i :: 0 <= i < |ps| ==> r[i] == Strip(ps[i])
  {
    seq(|ps|, i requires 0 <= i < |ps| => Strip(ps[i]))
  }

  /** Stripping pieces that hold no comma gives stripped, comma-free
      strings. */
  lemma StripAllPieces(ps: seq<string>)
    requires forall i :: 0 <= i < |ps| ==> ',' !in ps[i]
    ensures forall x :: x in StripAll(ps) ==> IsStripped(x) && ',' !in x
  {
    forall i | 0 <= i < |ps|
      ensures IsStripped(Strip(ps[i])) && ',' !in Strip(ps[i])
    {
      StripSpec(ps[i]);
      StripKeepsOnly(ps[i], ',');
    }
  }

  /** `[u.strip() for u in s.split(",") if u.strip()]`: the non-empty
      pieces between the commas, stripped, in their original order. */
  function CommaList(s: string): (r: seq<string>)
    ensures forall x :: x in r ==> x != "" && IsStripped(x) && ',' !in x
    ensures forall p :: p in Split(s, ',') && Strip(p) != "" ==> Strip(p) in r
    ensures IsSubsequence(r, StripAll(Split(s, ',')))
    ensures forall x :: multiset(r)[x] == if x == "" then 0 else multiset(StripAll(Split(s, ',')))[x]
  {
    StripAllPieces(Split(s, ','));
    KeepNonEmpty(Split(s, ','));
    Filter(StripAll(Split(s, ',')), NonEmpty)
  }

  /** Dropping the empty strings of the stripped pieces keeps every
      non-empty one, with all its copies, in order. */
  lemma KeepNonEmpty(ps: seq<string>)
    ensures var pieces := StripAll(ps);
            var r := Filter(pieces, NonEmpty);
            && (forall p :: p in ps && Strip(p) != "" ==> Strip(p) in r)
            && IsSubsequence(r, pieces)
            && forall x :: multiset(r)[x] == if x == "" then 0 else multiset(pieces)[x]
  {
    var pieces := StripAll(ps);
    forall p | p in ps && Strip(p) != ""
      ensures Strip(p) in Filter(pieces, NonEmpty)
    {
      var i :| 0 <= i < |ps| && ps[i] == p;
      assert pieces[i] == Strip(p);
    }
    FilterIsSubsequence(pieces, NonEmpty);
    FilterMultiset(pieces, NonEmpty);
  }

  /** `if u.strip()`: the condition that drops empty pieces. */
  predicate NonEmpty(t: string)
  {
    t != ""
  }

  /** An unset or empty variable gives the empty list. */
  lemma CommaListOfEmpty()
    ensures CommaList("") == []
  {
    assert Strip("") == "";
    assert StripAll(Split("", ',')) == [""];
    assert Filter([""], NonEmpty) == [];
  }

  /** Stripping strings that are already stripped changes nothing. */
  lemma StripAllOfStripped(items: seq<string>)
    requires forall i :: 0 <= i < |items| ==> IsStripped(items[i])
    ensures StripAll(items) == items
  {
    forall i | 0 <= i < |items|
      ensures Strip(items[i]) == items[i]
    {
      StripOfStripped(items[i]);
    }
  }

  /** Parsing a list written out as `",".join(items)` gives the items back,
      when each is non-empty, stripped and free of commas. */
  lemma CommaListOfJoin(items: seq<string>)
    requires forall i :: 0 <= i < |items| ==> items[i] != "" && IsStripped(items[i]) && ',' !in items[i]
    ensures CommaList(Join(items, ",")) == items
  {
    if items == [] {
      CommaListOfEmpty();
    } else {
      SplitJoin(items, ',');
      StripAllOfStripped(items);
      FilterAll(items, NonEmpty);
    }
  }

  /** `get_recipients`: the stored ids followed by the supplementary ones,
      each id kept at its first occurrence only. */
  function GetRecipients(ids: seq<string>, extraIds: string): (r: seq<string>)
    ensures Distinct(r)
    ensures forall x :: x in r <==> x in ids || x in CommaList(extraIds)
    ensures |r| <= |ids| + |CommaList(extraIds)|
    ensures forall i, j :: 0 <= i < j < |r| ==>
              FirstIndex(ids + CommaList(extraIds), r[i]) < FirstIndex(ids + CommaList(extraIds), r[j])
  {
    var all := ids + CommaList(extraIds);
    DedupFirstOccurrenceOrder(all);
    Dedup(all)
  }

  /** Stored ids without repetitions come first, unchanged and in order. */
  lemma RecipientsStartWithIds(ids: seq<string>, extraIds: string)
    requires Distinct(ids)
    ensures var r := GetRecipients(ids, extraIds);
            |ids| <= |r| && r[..|ids|] == ids
  {
    DedupPrefix(ids, CommaList(extraIds));
    DedupOfDistinct(ids);
  }
}
