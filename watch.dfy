/** The change-detection pass of `main`: for each monitored target, compare
    the keywords found on its page now with those stored from the previous
    run, collect one notification per target whose keywords changed, and
    store the fresh readings for the next run. */
module Watch {
  import opened Wrappers
  import opened Seqs
  import opened Text
  import opened Keywords

  /** One entry of the target list. A missing keyword list is `None`. */
  datatype Target = Target(
    name: string,
    url: string,
    appearKeywords: Option<seq<string>>,
    vanishKeywords: Option<seq<string>>)

  /** What is stored per target between runs: the last readings of both
      keyword lists. */
  datatype Record = Record(appear: PresenceMap, vanish: PresenceMap)

  /** The persisted state, keyed by a digest of a target's name and url. */
  type State = map<string, Record>

  /** The key of a target; `keyOf` stands for the truncated digest of
      `name + "|" + url`. */
  function KeyOf(keyOf: (string, string) -> string, t: Target): string
  {
    keyOf(t.name, t.url)
  }

  /** `state.get(key, {"appear": {}, "vanish": {}})`. */
  function Previous(state: State, key: string): (r: Record)
    ensures key in state ==> r == state[key]
    ensures key !in state ==> forall kw :: !r.appear.IsTrue(kw) && !r.vanish.IsTrue(kw)
  {
    if key in state then state[key] else Record(EmptyMap, EmptyMap)
  }

  /** The record a successful reading of `text` stores for `t`. */
  function Fresh(t: Target, text: string): (r: Record)
    ensures r.appear.Valid() && r.vanish.Valid()
  {
    Record(Evaluate(text, t.appearKeywords.GetOr([])), Evaluate(text, t.vanishKeywords.GetOr([])))
  }

  /** Appearance is true now and was false or missing before. */
  predicate HasAppeared(cur: PresenceMap, prev: PresenceMap, kw: string)
  {
    kw in cur.found && cur.found[kw]
    && ((kw in prev.found && !prev.found[kw]) || kw !in prev.found)
  }

  /** Vanishing is true before and false now; a keyword missing before never
      vanishes. */
  predicate HasVanished(cur: PresenceMap, prev: PresenceMap, kw: string)
  {
    prev.IsTrue(kw) && kw in cur.found && !cur.found[kw]
  }

  /** The keywords that appeared, in the order of the current dict. */
  function Appeared(cur: PresenceMap, prev: PresenceMap): (r: seq<string>)
    ensures forall kw :: kw in r <==> kw in cur.keys && HasAppeared(cur, prev, kw)
    ensures r == [] <==> forall i :: 0 <= i < |cur.keys| ==> !HasAppeared(cur, prev, cur.keys[i])
    ensures IsSubsequence(r, cur.keys)
  {
    FilterIsSubsequence(cur.keys, kw => HasAppeared(cur, prev, kw));
    FilterEmpty(cur.keys, kw => HasAppeared(cur, prev, kw));
    Filter(cur.keys, kw => HasAppeared(cur, prev, kw))
  }

  /** The keywords that vanished, in the order of the current dict. */
  function Vanished(cur: PresenceMap, prev: PresenceMap): (r: seq<string>)
    ensures forall kw :: kw in r <==> kw in cur.keys && HasVanished(cur, prev, kw)
    ensures r == [] <==> forall i :: 0 <= i < |cur.keys| ==> !HasVanished(cur, prev, cur.keys[i])
    ensures IsSubsequence(r, cur.keys)
  {
    FilterIsSubsequence(cur.keys, kw => HasVanished(cur, prev, kw));
    FilterEmpty(cur.keys, kw => HasVanished(cur, prev, kw));
    Filter(cur.keys, kw => HasVanished(cur, prev, kw))
  }

  const ChangeHeader := "【変化検知】"
  const AppearedHeading := "▼ 出現したキーワード"
  const VanishedHeading := "▼ 消えたキーワード"

  /** `[f"- {kw}" for kw in kws]`. */
  function Bullets(kws: seq<string>): (r: seq<string>)
    ensures |r| == |kws|
    ensures forall i :: 0 <= i < |kws| ==> r[i] == "- " + kws[i]
  {
    seq(|kws|, i requires 0 <= i < |kws| => "- " + kws[i])
  }

  /** The lines of one target's notification block. */
  function MessageLines(name: string, url: string, appeared: seq<string>, vanished: seq<string>): (r: seq<string>)
    ensures |r| >= 2 && r[0] == ChangeHeader + name && r[1] == url
    ensures |r| == 2 + (if appeared == [] then 0 else 1 + |appeared|)
                     + (if vanished == [] then 0 else 1 + |vanished|)
  {
    var a := if appeared == [] then [] else [AppearedHeading] + Bullets(appeared);
    var v := if vanished == [] then [] else [VanishedHeading] + Bullets(vanished);
    [ChangeHeader + name, url] + a + v
  }

  /** Every appeared and every vanished keyword has its own bullet line,
      under its section's heading. */
  lemma MessageListsKeywords(name: string, url: string, appeared: seq<string>, vanished: seq<string>)
    ensures var r := MessageLines(name, url, appeared, vanished);
            && (appeared != [] ==> r[2] == AppearedHeading)
            && (forall i :: 0 <= i < |appeared| ==> r[3 + i] == "- " + appeared[i])
            && (vanished != [] ==> r[|r| - |vanished| - 1] == VanishedHeading)
            && (forall i :: 0 <= i < |vanished| ==> r[|r| - |vanished| + i] == "- " + vanished[i])
  {
  }

  /** `"\n".join(lines)`. */
  function Message(name: string, url: string, appeared: seq<string>, vanished: seq<string>): (r: string)
    ensures IsPrefix(ChangeHeader + name + "\n" + url, r)
  {
    var ls := MessageLines(name, url, appeared, vanished);
    JoinStartsWithTwo(ls, "\n");
    Join(ls, "\n")
  }

  /** A notification starts with the change header naming the target, then
      its url, each on a line of its own. */
  lemma MessageStartsWithHeader(name: string, url: string, appeared: seq<string>, vanished: seq<string>)
    requires appeared != [] || vanished != []
    ensures IsPrefix(ChangeHeader + name + "\n" + url + "\n", Message(name, url, appeared, vanished))
  {
    var ls := MessageLines(name, url, appeared, vanished);
    JoinFirstTwo(ls, "\n");
    var p := ChangeHeader + name + "\n" + url + "\n";
    assert Join(ls, "\n") == p + Join(ls[2..], "\n");
    assert (p + Join(ls[2..], "\n"))[..|p|] == p;
  }

  /** The outcome of one target's turn through the loop. */
  datatype StepResult = StepResult(state: State, notification: Option<string>)

  /** One iteration of the loop over targets; `page` is the extracted text
      of the target's page, `None` when fetching it raised. */
  function Step(state: State, keyOf: (string, string) -> string, t: Target, page: Option<string>): (r: StepResult)
    ensures page.None? ==> r == StepResult(state, None)
    ensures page.Some? ==> r.state == state[KeyOf(keyOf, t) := Fresh(t, page.value)]
    ensures forall k :: k != KeyOf(keyOf, t) ==> (k in r.state <==> k in state)
    ensures forall k :: k != KeyOf(keyOf, t) && k in state ==> r.state[k] == state[k]
  {
    match page
    case None => StepResult(state, None)
    case Some(text) =>
      var key := KeyOf(keyOf, t);
      var prev := Previous(state, key);
      var cur := Fresh(t, text);
      var appeared := Appeared(cur.appear, prev.appear);
      var vanished := Vanished(cur.vanish, prev.vanish);
      var note := if appeared != [] || vanished != [] then Some(Message(t.name, t.url, appeared, vanished)) else None;
      StepResult(state[key := cur], note)
  }

  /** `Step` on a successful fetch, spelled out. */
  lemma StepUnfold(state: State, keyOf: (string, string) -> string, t: Target, text: string)
    ensures var prev := Previous(state, KeyOf(keyOf, t));
            var cur := Fresh(t, text);
            var appeared := Appeared(cur.appear, prev.appear);
            var vanished := Vanished(cur.vanish, prev.vanish);
            Step(state, keyOf, t, Some(text)) ==
              StepResult(state[KeyOf(keyOf, t) := cur],
                         if appeared != [] || vanished != [] then Some(Message(t.name, t.url, appeared, vanished)) else None)
  {
  }

  /** Some keyword of `t` changed against the stored record `prev`: an
      appearance keyword is present now and was not before, or a vanish
      keyword was present before and is gone now. */
  predicate Changed(prev: Record, t: Target, text: string)
  {
    (exists kw :: kw in t.appearKeywords.GetOr([]) && Matches(text, kw) && !prev.appear.IsTrue(kw))
    || (exists kw :: kw in t.vanishKeywords.GetOr([]) && prev.vanish.IsTrue(kw) && !Matches(text, kw))
  }

  /** A target is notified exactly when its fetch succeeded and one of its
      keywords changed; the notification is its message block. */
  lemma StepNotifiesIffChanged(state: State, keyOf: (string, string) -> string, t: Target, page: Option<string>)
    ensures var r := Step(state, keyOf, t, page);
            r.notification.Some? <==> page.Some? && Changed(Previous(state, KeyOf(keyOf, t)), t, page.value)
  {
    if page.Some? {
      var prev := Previous(state, KeyOf(keyOf, t));
      StepUnfold(state, keyOf, t, page.value);
      AppearedIffNew(page.value, t.appearKeywords.GetOr([]), prev.appear);
      VanishedIffGone(page.value, t.vanishKeywords.GetOr([]), prev.vanish);
    }
  }

  /** Some keyword appeared exactly when a listed keyword matches now and
      was not true before. */
  lemma AppearedIffNew(text: string, kws: seq<string>, prev: PresenceMap)
    ensures Appeared(Evaluate(text, kws), prev) != [] <==>
            exists kw :: kw in kws && Matches(text, kw) && !prev.IsTrue(kw)
  {
    var cur := Evaluate(text, kws);
    var appeared := Appeared(cur, prev);
    if appeared != [] {
      assert appeared[0] in appeared;
    }
    if exists kw :: kw in kws && Matches(text, kw) && !prev.IsTrue(kw) {
      var kw :| kw in kws && Matches(text, kw) && !prev.IsTrue(kw);
      assert kw in cur.keys && HasAppeared(cur, prev, kw);
      assert kw in appeared;
    }
  }

  /** Some keyword vanished exactly when a listed keyword was true before
      and does not match now. */
  lemma VanishedIffGone(text: string, kws: seq<string>, prev: PresenceMap)
    ensures Vanished(Evaluate(text, kws), prev) != [] <==>
            exists kw :: kw in kws && prev.IsTrue(kw) && !Matches(text, kw)
  {
    var cur := Evaluate(text, kws);
    var vanished := Vanished(cur, prev);
    if vanished != [] {
      assert vanished[0] in vanished;
    }
    if exists kw :: kw in kws && prev.IsTrue(kw) && !Matches(text, kw) {
      var kw :| kw in kws && prev.IsTrue(kw) && !Matches(text, kw);
      assert kw in cur.keys && HasVanished(cur, prev, kw);
      assert kw in vanished;
    }
  }

  /** On a target's first observation nothing can vanish, and it is
      notified exactly when one of its appearance keywords is present. */
  lemma FirstObservation(state: State, keyOf: (string, string) -> string, t: Target, text: string)
    requires KeyOf(keyOf, t) !in state
    ensures var r := Step(state, keyOf, t, Some(text));
            r.notification.Some? <==> exists kw :: kw in t.appearKeywords.GetOr([]) && Matches(text, kw)
  {
    StepNotifiesIffChanged(state, keyOf, t, Some(text));
  }

  /** A notification opens with the target's name and url. */
  lemma StepNotificationHeader(state: State, keyOf: (string, string) -> string, t: Target, page: Option<string>)
    requires Step(state, keyOf, t, page).notification.Some?
    ensures IsPrefix(ChangeHeader + t.name + "\n" + t.url + "\n", Step(state, keyOf, t, page).notification.value)
  {
    var prev := Previous(state, KeyOf(keyOf, t));
    var cur := Fresh(t, page.value);
    MessageStartsWithHeader(t.name, t.url, Appeared(cur.appear, prev.appear), Vanished(cur.vanish, prev.vanish));
  }

  /** Reading a page whose record is already stored changes nothing and
      notifies nothing. */
  lemma {:induction false} StepOnStoredReading(state: State, keyOf: (string, string) -> string, t: Target, text: string)
    requires KeyOf(keyOf, t) in state && state[KeyOf(keyOf, t)] == Fresh(t, text)
    ensures Step(state, keyOf, t, Some(text)) == StepResult(state, None)
  {
    var cur := Fresh(t, text);
    var appeared := Appeared(cur.appear, cur.appear);
    var vanished := Vanished(cur.vanish, cur.vanish);
    assert state[KeyOf(keyOf, t) := cur] == state;
  }

  /** Idempotence: a second pass over the same page text notifies nothing
      and leaves the state as the first pass left it. */
  lemma StepIdempotent(state: State, keyOf: (string, string) -> string, t: Target, text: string)
    ensures var r1 := Step(state, keyOf, t, Some(text));
            Step(r1.state, keyOf, t, Some(text)) == StepResult(r1.state, None)
  {
    StepOnStoredReading(Step(state, keyOf, t, Some(text)).state, keyOf, t, text);
  }

  /** The outcome of a whole pass. */
  datatype RunResult = RunResult(state: State, notifications: seq<string>)

  /** The pass over all targets, in list order; `pages[i]` is what fetching
      `targets[i]` gave. */
  function Run(state: State, keyOf: (string, string) -> string, targets: seq<Target>, pages: seq<Option<string>>): (r: RunResult)
    requires |pages| == |targets|
    ensures |r.notifications| <= |targets|
    ensures forall k :: k in state ==> k in r.state
    decreases |targets|
  {
    if targets == [] then RunResult(state, [])
    else
      var n := |targets| - 1;
      var before := Run(state, keyOf, targets[..n], pages[..n]);
      var st := Step(before.state, keyOf, targets[n], pages[n]);
      RunResult(st.state, before.notifications + Emitted(st))
  }

  /** The notification a step appends, as a list of zero or one. */
  function Emitted(r: StepResult): seq<string>
  {
    if r.notification.Some? then [r.notification.value] else []
  }

  /** The loop of `main` over the targets: fetch failures are skipped,
      everything else updates `state` and may append to `notifications`. */
  method Detect(state0: State, keyOf: (string, string) -> string, targets: seq<Target>, pages: seq<Option<string>>)
    returns (state: State, notifications: seq<string>)
    requires |pages| == |targets|
    ensures RunResult(state, notifications) == Run(state0, keyOf, targets, pages)
  {
    state, notifications := state0, [];
    var i := 0;
    while i < |targets|
      invariant 0 <= i <= |targets|
      invariant RunResult(state, notifications) == Run(state0, keyOf, targets[..i], pages[..i])
    {
      ghost var step := Step(state, keyOf, targets[i], pages[i]);
      ghost var next := RunResult(step.state, notifications + Emitted(step));
      assert next == Run(state0, keyOf, targets[..i + 1], pages[..i + 1]) by {
        assert targets[..i + 1][..i] == targets[..i] && pages[..i + 1][..i] == pages[..i];
      }
      var t := targets[i];
      var key := keyOf(t.name, t.url);
      var prev := Previous(state, key);
      if pages[i].None? {
        i := i + 1;
        continue;
      }
      var text := pages[i].value;
      var curAppear := CheckKeywords(text, Some(t.appearKeywords.GetOr([])));
      var curVanish := CheckKeywords(text, Some(t.vanishKeywords.GetOr([])));
      var appeared := Appeared(curAppear, prev.appear);
      var vanished := Vanished(curVanish, prev.vanish);
      StepUnfold(state, keyOf, t, text);
      if appeared != [] || vanished != [] {
        notifications := notifications + [Message(t.name, t.url, appeared, vanished)];
      }
      state := state[key := Record(curAppear, curVanish)];
      i := i + 1;
    }
    assert targets[..|targets|] == targets && pages[..|pages|] == pages;
  }

  /** Notifications come in target-list order: those of the first `n`
      targets open the list of the whole pass. */
  lemma {:induction false} RunPrefix(state: State, keyOf: (string, string) -> string, targets: seq<Target>, pages: seq<Option<string>>, n: nat)
    requires |pages| == |targets| && n <= |targets|
    ensures var first := Run(state, keyOf, targets[..n], pages[..n]).notifications;
            var all := Run(state, keyOf, targets, pages).notifications;
            |first| <= |all| && all[..|first|] == first
    decreases |targets|
  {
    if n == |targets| {
      assert targets[..n] == targets && pages[..n] == pages;
    } else {
      var m := |targets| - 1;
      var tm, pm := targets[..m], pages[..m];
      RunPrefix(state, keyOf, tm, pm, n);
      assert tm[..n] == targets[..n] && pm[..n] == pages[..n];
      RunLast(state, keyOf, targets, pages);
    }
  }

  /** At most one notification per target: passing target `n` adds at
      most one notification to those of the targets before it. */
  lemma RunAtMostOnePerTarget(state: State, keyOf: (string, string) -> string, targets: seq<Target>, pages: seq<Option<string>>, n: nat)
    requires |pages| == |targets| && n < |targets|
    ensures |Run(state, keyOf, targets[..n + 1], pages[..n + 1]).notifications|
            <= |Run(state, keyOf, targets[..n], pages[..n]).notifications| + 1
  {
    var ts, ps := targets[..n + 1], pages[..n + 1];
    assert ts[..n] == targets[..n] && ps[..n] == pages[..n];
    RunLast(state, keyOf, ts, ps);
  }

  /** `Run` over a non-empty list, unfolded once. */
  lemma RunLast(state: State, keyOf: (string, string) -> string, targets: seq<Target>, pages: seq<Option<string>>)
    requires |pages| == |targets| > 0
    ensures var n := |targets| - 1;
            var before := Run(state, keyOf, targets[..n], pages[..n]);
            var r := Step(before.state, keyOf, targets[n], pages[n]);
            Run(state, keyOf, targets, pages) == RunResult(r.state, before.notifications + Emitted(r))
  {
  }

  /** Target `i` of the list was read successfully. */
  ghost predicate Fetched(pages: seq<Option<string>>, i: int)
  {
    0 <= i < |pages| && pages[i].Some?
  }

  /** A key that no successfully fetched target maps to keeps its record
      (or its absence). */
  lemma {:induction false} RunKeepsUntouchedKeys(state: State, keyOf: (string, string) -> string, targets: seq<Target>, pages: seq<Option<string>>, k: string)
    requires |pages| == |targets|
    requires forall i :: Fetched(pages, i) ==> KeyOf(keyOf, targets[i]) != k
    ensures var s := Run(state, keyOf, targets, pages).state;
            (k in s <==> k in state) && (k in state ==> s[k] == state[k])
    decreases |targets|
  {
    if targets != [] {
      var n := |targets| - 1;
      forall i | Fetched(pages[..n], i)
        ensures KeyOf(keyOf, targets[..n][i]) != k
      {
        assert Fetched(pages, i);
      }
      RunKeepsUntouchedKeys(state, keyOf, targets[..n], pages[..n], k);
      if pages[n].Some? {
        assert Fetched(pages, n);
      }
    }
  }

  /** The record of a successfully fetched target is its fresh reading,
      unless a later successfully fetched target has the same key. */
  lemma {:induction false} RunStoresLastReading(state: State, keyOf: (string, string) -> string, targets: seq<Target>, pages: seq<Option<string>>, i: nat)
    requires |pages| == |targets|
    requires Fetched(pages, i)
    requires forall j :: i < j && Fetched(pages, j) ==> KeyOf(keyOf, targets[j]) != KeyOf(keyOf, targets[i])
    ensures var s := Run(state, keyOf, targets, pages).state;
            KeyOf(keyOf, targets[i]) in s && s[KeyOf(keyOf, targets[i])] == Fresh(targets[i], pages[i].value)
    decreases |targets|
  {
    var n := |targets| - 1;
    if i < n {
      forall j | i < j && Fetched(pages[..n], j)
        ensures KeyOf(keyOf, targets[..n][j]) != KeyOf(keyOf, targets[..n][i])
      {
        assert Fetched(pages, j);
      }
      RunStoresLastReading(state, keyOf, targets[..n], pages[..n], i);
      if pages[n].Some? {
        assert Fetched(pages, n);
      }
    }
  }

  /** No two successfully fetched targets share a key. */
  ghost predicate DistinctKeys(keyOf: (string, string) -> string, targets: seq<Target>, pages: seq<Option<string>>)
    requires |pages| == |targets|
  {
    forall i, j :: Fetched(pages, i) && Fetched(pages, j) && i != j ==>
      KeyOf(keyOf, targets[i]) != KeyOf(keyOf, targets[j])
  }

  /** Idempotence of a whole pass: when the targets have distinct keys,
      running again over the same page texts notifies nothing and leaves
      the state as the first pass left it. */
  lemma RunIdempotent(state: State, keyOf: (string, string) -> string, targets: seq<Target>, pages: seq<Option<string>>)
    requires |pages| == |targets|
    requires DistinctKeys(keyOf, targets, pages)
    ensures var s := Run(state, keyOf, targets, pages).state;
            Run(s, keyOf, targets, pages) == RunResult(s, [])
  {
    var s := Run(state, keyOf, targets, pages).state;
    forall i | Fetched(pages, i)
      ensures KeyOf(keyOf, targets[i]) in s && s[KeyOf(keyOf, targets[i])] == Fresh(targets[i], pages[i].value)
    {
      RunStoresLastReading(state, keyOf, targets, pages, i);
    }
    RerunPrefix(s, keyOf, targets, pages, |targets|);
    assert targets[..|targets|] == targets && pages[..|pages|] == pages;
  }

  /** Over a state that already holds every fetched target's fresh reading,
      each prefix of the pass is a no-op. */
  lemma {:induction false} RerunPrefix(s: State, keyOf: (string, string) -> string, targets: seq<Target>, pages: seq<Option<string>>, n: nat)
    requires |pages| == |targets| && n <= |targets|
    requires forall i :: Fetched(pages, i) ==>
               KeyOf(keyOf, targets[i]) in s && s[KeyOf(keyOf, targets[i])] == Fresh(targets[i], pages[i].value)
    ensures Run(s, keyOf, targets[..n], pages[..n]) == RunResult(s, [])
  {
    if n > 0 {
      RerunPrefix(s, keyOf, targets, pages, n - 1);
      assert targets[..n][..n - 1] == targets[..n - 1] && pages[..n][..n - 1] == pages[..n - 1];
      if pages[n - 1].Some? {
        assert Fetched(pages, n - 1);
        StepOnStoredReading(s, keyOf, targets[n - 1], pages[n - 1].value);
      }
    }
  }

  /** A target watching one keyword `a` for appearance and one keyword `v`
      for vanishing. */
  function Watcher(name: string, url: string, a: string, v: string): Target
  {
    Target(name, url, Some([a]), Some([v]))
  }

  /** What a reading of `text` stores for such a target. */
  lemma WatcherReading(name: string, url: string, a: string, v: string, text: string)
    ensures var r := Fresh(Watcher(name, url, a, v), text);
            && r.appear.keys == [a] && r.vanish.keys == [v]
            && (r.appear.IsTrue(a) <==> Matches(text, a))
            && (r.vanish.IsTrue(v) <==> Matches(text, v))
  {
    assert [a][..0] == [] && [v][..0] == [];
  }

  /** First reading: only the vanish keyword is present, nothing is sent. */
  lemma CycleFirst(keyOf: (string, string) -> string, name: string, url: string, a: string, v: string, p1: string)
    requires !Matches(p1, a)
    ensures var t := Watcher(name, url, a, v);
            Step(map[], keyOf, t, Some(p1)) == StepResult(map[KeyOf(keyOf, t) := Fresh(t, p1)], None)
  {
    StepNotifiesIffChanged(map[], keyOf, Watcher(name, url, a, v), Some(p1));
  }

  /** Second reading: the appearance keyword came and the vanish keyword
      went; both are reported, in one block. */
  lemma CycleSecond(keyOf: (string, string) -> string, name: string, url: string, a: string, v: string, p1: string, p2: string)
    requires Matches(p1, v) && !Matches(p1, a)
    requires Matches(p2, a) && !Matches(p2, v)
    ensures var t := Watcher(name, url, a, v);
            var s := map[KeyOf(keyOf, t) := Fresh(t, p1)];
            Step(s, keyOf, t, Some(p2)) == StepResult(map[KeyOf(keyOf, t) := Fresh(t, p2)], Some(Message(name, url, [a], [v])))
  {
    var t := Watcher(name, url, a, v);
    var prev, cur := Fresh(t, p1), Fresh(t, p2);
    CycleSecondChanges(name, url, a, v, p1, p2);
    var k := KeyOf(keyOf, t);
    var s := map[k := prev];
    assert Previous(s, k) == prev;
    StepUnfold(s, keyOf, t, p2);
    assert s[k := cur] == map[k := cur];
  }

  /** The keyword lists of the second reading's message. */
  lemma CycleSecondChanges(name: string, url: string, a: string, v: string, p1: string, p2: string)
    requires Matches(p1, v) && !Matches(p1, a)
    requires Matches(p2, a) && !Matches(p2, v)
    ensures var t := Watcher(name, url, a, v);
            var prev, cur := Fresh(t, p1), Fresh(t, p2);
            Appeared(cur.appear, prev.appear) == [a] && Vanished(cur.vanish, prev.vanish) == [v]
  {
    var t := Watcher(name, url, a, v);
    WatcherReading(name, url, a, v, p1);
    WatcherReading(name, url, a, v, p2);
    var prev, cur := Fresh(t, p1), Fresh(t, p2);
    OnlyAppeared(cur.appear, prev.appear, a);
    OnlyVanished(cur.vanish, prev.vanish, v);
  }

  /** A dict with the single key `a`, which appeared, reports just `a`. */
  lemma OnlyAppeared(cur: PresenceMap, prev: PresenceMap, a: string)
    requires cur.keys == [a] && HasAppeared(cur, prev, a)
    ensures Appeared(cur, prev) == [a]
  {
    SubsequenceOfSingleton(Appeared(cur, prev), a);
  }

  /** A dict with the single key `v`, which vanished, reports just `v`. */
  lemma OnlyVanished(cur: PresenceMap, prev: PresenceMap, v: string)
    requires cur.keys == [v] && HasVanished(cur, prev, v)
    ensures Vanished(cur, prev) == [v]
  {
    SubsequenceOfSingleton(Vanished(cur, prev), v);
  }

  /** Third reading, whatever the page holds: the appearance keyword was
      already present and the vanish keyword already gone, so nothing is
      sent. */
  lemma CycleThird(keyOf: (string, string) -> string, name: string, url: string, a: string, v: string, p2: string, p3: string)
    requires Matches(p2, a) && !Matches(p2, v)
    ensures var t := Watcher(name, url, a, v);
            var s := map[KeyOf(keyOf, t) := Fresh(t, p2)];
            Step(s, keyOf, t, Some(p3)).notification.None?
  {
    var t := Watcher(name, url, a, v);
    var s := map[KeyOf(keyOf, t) := Fresh(t, p2)];
    var prev := Previous(s, KeyOf(keyOf, t));
    assert prev == Fresh(t, p2);
    assert !Changed(prev, t, p3) by {
      WatcherReading(name, url, a, v, p2);
      assert t.appearKeywords.GetOr([]) == [a] && t.vanishKeywords.GetOr([]) == [v];
    }
    StepNotifiesIffChanged(s, keyOf, t, Some(p3));
  }

  /** Three runs over a target watching `a` to appear and `v` to vanish:
      a first page with only `v` sends nothing (a first observation
      notifies only for a present appearance keyword); a page with only `a`
      reports both changes; any third page sends nothing, since neither
      the loss of `a` nor the return of `v` is reported. */
  lemma {:induction false} AppearVanishCycle(keyOf: (string, string) -> string, name: string, url: string, a: string, v: string, p1: string, p2: string, p3: string)
    requires Matches(p1, v) && !Matches(p1, a)
    requires Matches(p2, a) && !Matches(p2, v)
    ensures var t := Watcher(name, url, a, v);
            var r1 := Step(map[], keyOf, t, Some(p1));
            var r2 := Step(r1.state, keyOf, t, Some(p2));
            var r3 := Step(r2.state, keyOf, t, Some(p3));
            && r1.notification.None?
            && r2.notification == Some(Message(name, url, [a], [v]))
            && r3.notification.None?
  {
    CycleFirst(keyOf, name, url, a, v, p1);
    CycleSecond(keyOf, name, url, a, v, p1, p2);
    CycleThird(keyOf, name, url, a, v, p2, p3);
  }

  /** The keyword facts of the instance below. */
  lemma VacancyMatches()
    ensures Matches("full", "full") && !Matches("full", "vacancy")
    ensures Matches("vacancy", "vacancy") && !Matches("vacancy", "full")
  {
    assert Lower("full") == "full";
    assert Lower("vacancy") == "vacancy";
    assert IsPrefix("full", "full");
    assert IsPrefix("vacancy", "vacancy");
    if Contains("vacancy", "full") {
      ContainsFirstChar("vacancy", "full");
    }
    if Contains("full", "vacancy") {
      ContainsFirstChar("full", "vacancy");
    }
  }

  /** The cycle with "vacancy" as the appearance keyword and "full" as the
      vanish keyword, read from pages "full", "vacancy" and "". */
  lemma VacancyScenario(keyOf: (string, string) -> string)
    ensures var t := Watcher("A", "u", "vacancy", "full");
            var r1 := Step(map[], keyOf, t, Some("full"));
            var r2 := Step(r1.state, keyOf, t, Some("vacancy"));
            var r3 := Step(r2.state, keyOf, t, Some(""));
            && r1.notification.None?
            && r2.notification == Some(Message("A", "u", ["vacancy"], ["full"]))
            && r3.notification.None?
  {
    VacancyMatches();
    AppearVanishCycle(keyOf, "A", "u", "vacancy", "full", "full", "vacancy", "");
  }
}
