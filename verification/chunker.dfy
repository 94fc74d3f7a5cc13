/** The greedy paragraph chunker `split_text` of the utilities module.

    The text is cut into paragraphs at every "\n\n"; consecutive paragraphs
    are packed into a chunk until the next one would push the chunk's summed
    token count past `maxTokens`, and each chunk is its paragraphs joined
    back with "\n\n". Chunks are modelled first as paragraph lists (groups),
    which is where the properties live, and then joined into strings. */
module Chunker {
  import opened PyStrings

  /** `count_tokens`: the number of tokens the gpt-3.5-turbo encoding gives a
      text. The encoder itself is outside this model. */
  type TokenCounter = string -> nat

  const ParagraphSep: string := "\n\n"

  /** The default of `split_text`'s `max_tokens` parameter. */
  const DefaultMaxTokens: int := 2000

  /** `text.split('\n\n')`. */
  function Paragraphs(text: string): (ps: seq<string>)
    ensures |ps| >= 1
    ensures Join(ParagraphSep, ps) == text
  {
    SplitJoin(text, ParagraphSep);
    Split(text, ParagraphSep)
  }

  /** Summed token counts of a list of paragraphs. */
  function TokenSum(paras: seq<string>, tokens: TokenCounter): nat
  {
    if |paras| == 0 then 0
    else TokenSum(paras[..|paras| - 1], tokens) + tokens(paras[|paras| - 1])
  }

  /** The paragraphs of a list of groups, in order. */
  function Flatten(gs: seq<seq<string>>): seq<string>
  {
    if |gs| == 0 then [] else Flatten(gs[..|gs| - 1]) + gs[|gs| - 1]
  }

  lemma {:induction false} FlattenCons(g: seq<string>, gs: seq<seq<string>>)
    ensures Flatten([g] + gs) == g + Flatten(gs)
  {
    if |gs| > 0 {
      assert ([g] + gs)[..|gs|] == [g] + gs[..|gs| - 1];
      FlattenCons(g, gs[..|gs| - 1]);
    } else {
      assert ([g] + gs)[..0] == [];
    }
  }

  /** Only the first group may be empty. */
  ghost predicate OnlyFirstEmpty(gs: seq<seq<string>>)
  {
    forall i :: 0 < i < |gs| ==> gs[i] != []
  }

  /** Every group of two or more paragraphs stays within the budget; a
      single paragraph may exceed it on its own. */
  ghost predicate WithinBudget(gs: seq<seq<string>>, tokens: TokenCounter, maxTokens: int)
  {
    forall i :: 0 <= i < |gs| ==> |gs[i]| <= 1 || TokenSum(gs[i], tokens) <= maxTokens
  }

  /** A group was closed only because the next group's first paragraph did
      not fit into it. */
  ghost predicate Greedy(gs: seq<seq<string>>, tokens: TokenCounter, maxTokens: int)
  {
    forall i, j :: 0 <= i && j == i + 1 && j < |gs| && gs[j] != [] ==>
      TokenSum(gs[i], tokens) + tokens(gs[j][0]) > maxTokens
  }

  ghost predicate WellFormed(gs: seq<seq<string>>, tokens: TokenCounter, maxTokens: int)
  {
    OnlyFirstEmpty(gs) && WithinBudget(gs, tokens, maxTokens) && Greedy(gs, tokens, maxTokens)
  }

  /** The state of `split_text`'s loop: `done` are the chunks appended so far,
      `current` and `count` are `current_chunk` and `current_count`. Either
      no paragraph has been seen yet, or `count` is the token sum of the
      non-empty `current`, and closing `current` now would give well-formed
      groups. */
  ghost predicate LoopInvariant(done: seq<seq<string>>, current: seq<string>, count: int,
                                tokens: TokenCounter, maxTokens: int)
  {
    || (done == [] && current == [] && count == 0)
    || (current != [] && count == TokenSum(current, tokens)
        && WellFormed(done + [current], tokens, maxTokens))
  }

  /** The loop of `split_text` over the remaining paragraphs, followed by the
      final `if current_chunk:` flush. */
  function Group(paras: seq<string>, tokens: TokenCounter, maxTokens: int,
                 done: seq<seq<string>>, current: seq<string>, count: int): seq<seq<string>>
    decreases |paras|
  {
    if |paras| == 0 then
      if current != [] then done + [current] else done
    else
      var t := tokens(paras[0]);
      if count + t > maxTokens then
        Group(paras[1..], tokens, maxTokens, done + [current], [paras[0]], t)
      else
        Group(paras[1..], tokens, maxTokens, done, current + [paras[0]], count + t)
  }

  lemma FlattenSnoc(gs: seq<seq<string>>, g: seq<string>)
    ensures Flatten(gs + [g]) == Flatten(gs) + g
  {
    assert (gs + [g])[..|gs|] == gs;
  }

  /** Closing the current chunk because `p` does not fit keeps the invariant. */
  lemma CloseStep(done: seq<seq<string>>, current: seq<string>, count: int, p: string,
                  tokens: TokenCounter, maxTokens: int)
    requires LoopInvariant(done, current, count, tokens, maxTokens)
    requires count + tokens(p) > maxTokens
    ensures LoopInvariant(done + [current], [p], tokens(p), tokens, maxTokens)
  {
    var t := tokens(p);
    assert TokenSum([p], tokens) == t by {
      assert [p][..0] == [];
    }
    var done' := done + [current];
    var gs := done' + [[p]];
    assert forall i :: 0 <= i < |done'| ==> gs[i] == done'[i];
    if current == [] {
      assert gs == [[], [p]];
    } else {
      assert OnlyFirstEmpty(gs);
      assert WithinBudget(gs, tokens, maxTokens);
      assert Greedy(gs, tokens, maxTokens);
    }
  }

  /** Adding `p` to the current chunk because it fits keeps the invariant. */
  lemma ExtendStep(done: seq<seq<string>>, current: seq<string>, count: int, p: string,
                   tokens: TokenCounter, maxTokens: int)
    requires LoopInvariant(done, current, count, tokens, maxTokens)
    requires count + tokens(p) <= maxTokens
    ensures LoopInvariant(done, current + [p], count + tokens(p), tokens, maxTokens)
  {
    var t := tokens(p);
    var current' := current + [p];
    assert TokenSum(current', tokens) == count + t by {
      assert current'[..|current'| - 1] == current;
    }
    var gs := done + [current'];
    if current == [] {
      assert gs == [[p]];
    } else {
      var old' := done + [current];
      assert forall i :: 0 <= i < |done| ==> gs[i] == old'[i];
      assert current'[0] == current[0];
      assert OnlyFirstEmpty(gs);
      assert WithinBudget(gs, tokens, maxTokens);
      assert Greedy(gs, tokens, maxTokens);
    }
  }

  /** The loop's result is well formed. */
  lemma {:induction false} GroupWellFormed(paras: seq<string>, tokens: TokenCounter, maxTokens: int,
                                           done: seq<seq<string>>, current: seq<string>, count: int)
    requires LoopInvariant(done, current, count, tokens, maxTokens)
    ensures WellFormed(Group(paras, tokens, maxTokens, done, current, count), tokens, maxTokens)
    decreases |paras|
  {
    if |paras| > 0 {
      var p := paras[0];
      var t := tokens(p);
      if count + t > maxTokens {
        CloseStep(done, current, count, p, tokens, maxTokens);
        GroupWellFormed(paras[1..], tokens, maxTokens, done + [current], [p], t);
      } else {
        ExtendStep(done, current, count, p, tokens, maxTokens);
        GroupWellFormed(paras[1..], tokens, maxTokens, done, current + [p], count + t);
      }
    }
  }

  /** The loop loses, duplicates and reorders no paragraph. */
  lemma {:induction false} GroupFlatten(paras: seq<string>, tokens: TokenCounter, maxTokens: int,
                                        done: seq<seq<string>>, current: seq<string>, count: int)
    ensures Flatten(Group(paras, tokens, maxTokens, done, current, count)) == Flatten(done) + current + paras
    decreases |paras|
  {
    if |paras| == 0 {
      FlattenSnoc(done, current);
    } else {
      var p := paras[0];
      var t := tokens(p);
      assert paras == [p] + paras[1..];
      if count + t > maxTokens {
        GroupFlatten(paras[1..], tokens, maxTokens, done + [current], [p], t);
        FlattenSnoc(done, current);
      } else {
        GroupFlatten(paras[1..], tokens, maxTokens, done, current + [p], count + t);
      }
    }
  }

  /** Chunks already closed stay in front, and the open chunk is the start
      of the next one. */
  lemma {:induction false} GroupPrefix(paras: seq<string>, tokens: TokenCounter, maxTokens: int,
                                       done: seq<seq<string>>, current: seq<string>, count: int)
    ensures var gs := Group(paras, tokens, maxTokens, done, current, count);
      && |done| <= |gs| && gs[..|done|] == done
      && (current != [] ==> |done| < |gs| && current <= gs[|done|])
    decreases |paras|
  {
    if |paras| == 0 {
      assert (done + [current])[..|done|] == done;
    } else {
      var p := paras[0];
      var t := tokens(p);
      if count + t > maxTokens {
        var done' := done + [current];
        GroupPrefix(paras[1..], tokens, maxTokens, done', [p], t);
        var gs := Group(paras[1..], tokens, maxTokens, done', [p], t);
        assert gs[..|done|] == gs[..|done'|][..|done|];
        assert gs[|done|] == gs[..|done'|][|done|];
      } else {
        GroupPrefix(paras[1..], tokens, maxTokens, done, current + [p], count + t);
      }
    }
  }

  /** `split_text`'s chunks as paragraph groups. */
  function SplitGroups(text: string, tokens: TokenCounter, maxTokens: int): (gs: seq<seq<string>>)
    ensures |gs| >= 1
    ensures Flatten(gs) == Paragraphs(text)
    ensures WellFormed(gs, tokens, maxTokens)
    ensures gs[0] == [] <==> tokens(Paragraphs(text)[0]) > maxTokens
  {
    var ps := Paragraphs(text);
    GroupWellFormed(ps, tokens, maxTokens, [], [], 0);
    GroupFlatten(ps, tokens, maxTokens, [], [], 0);
    FirstStep(ps, tokens, maxTokens);
    Group(ps, tokens, maxTokens, [], [], 0)
  }

  /** One turn of the loop from its initial state. */
  lemma GroupFirstTurn(ps: seq<string>, tokens: TokenCounter, maxTokens: int)
    requires |ps| >= 1
    ensures var t := tokens(ps[0]);
      Group(ps, tokens, maxTokens, [], [], 0)
      == if t > maxTokens then Group(ps[1..], tokens, maxTokens, [[]], [ps[0]], t)
         else Group(ps[1..], tokens, maxTokens, [], [ps[0]], t)
  {
    var t := tokens(ps[0]);
    var noGroups: seq<seq<string>> := [];
    var noParas: seq<string> := [];
    assert noGroups + [noParas] == [[]];
    assert noParas + [ps[0]] == [ps[0]];
    assert 0 + t == t;
  }

  /** The first paragraph decides whether the first group is empty. */
  lemma FirstStep(ps: seq<string>, tokens: TokenCounter, maxTokens: int)
    requires |ps| >= 1
    ensures var gs := Group(ps, tokens, maxTokens, [], [], 0);
      |gs| >= 1 && (gs[0] == [] <==> tokens(ps[0]) > maxTokens)
  {
    var p := ps[0];
    var t := tokens(p);
    GroupFirstTurn(ps, tokens, maxTokens);
    if t > maxTokens {
      GroupPrefix(ps[1..], tokens, maxTokens, [[]], [p], t);
    } else {
      GroupPrefix(ps[1..], tokens, maxTokens, [], [p], t);
    }
  }

  /** Each group joined back into text with "\n\n". */
  function JoinEach(gs: seq<seq<string>>): (chunks: seq<string>)
    ensures |chunks| == |gs|
    ensures forall i :: 0 <= i < |gs| ==> chunks[i] == Join(ParagraphSep, gs[i])
  {
    seq(|gs|, i requires 0 <= i < |gs| => Join(ParagraphSep, gs[i]))
  }

  /** `split_text(text, max_tokens)`. */
  function SplitText(text: string, tokens: TokenCounter, maxTokens: int): (chunks: seq<string>)
    ensures |chunks| >= 1
  {
    JoinEach(SplitGroups(text, tokens, maxTokens))
  }

  /** Joining the chunks of groups that are all non-empty gives the same text
      as joining all their paragraphs. */
  lemma {:induction false} JoinEachFlatten(gs: seq<seq<string>>)
    requires |gs| >= 1
    requires forall i :: 0 <= i < |gs| ==> gs[i] != []
    ensures Flatten(gs) != []
    ensures Join(ParagraphSep, JoinEach(gs)) == Join(ParagraphSep, Flatten(gs))
  {
    var n := |gs|;
    if n == 1 {
      assert gs[..0] == [];
      assert Flatten(gs) == gs[0];
    } else {
      var init := gs[..n - 1];
      JoinEachFlatten(init);
      assert JoinEach(gs) == JoinEach(init) + [Join(ParagraphSep, gs[n - 1])];
      JoinConcat(ParagraphSep, JoinEach(init), [Join(ParagraphSep, gs[n - 1])]);
      JoinConcat(ParagraphSep, Flatten(init), gs[n - 1]);
    }
  }

  /** Dropping an empty leading group changes neither the paragraphs nor,
      when something is left, the non-emptiness of the rest. */
  lemma DropEmptyFirst(gs: seq<seq<string>>)
    requires |gs| >= 1 && gs[0] == [] && Flatten(gs) != []
    ensures |gs| >= 2
    ensures Flatten(gs[1..]) == Flatten(gs)
    ensures JoinEach(gs) == [""] + JoinEach(gs[1..])
  {
    DropEmptyFirstFlatten(gs);
    var rest := gs[1..];
    assert Flatten(rest) != [];
    DropEmptyFirstJoin(gs);
  }

  lemma DropEmptyFirstJoin(gs: seq<seq<string>>)
    requires |gs| >= 1 && gs[0] == []
    ensures JoinEach(gs) == [""] + JoinEach(gs[1..])
  {
    var a := JoinEach(gs);
    var b := [""] + JoinEach(gs[1..]);
    assert a[0] == Join(ParagraphSep, []) == "";
    forall i | 0 < i < |a| ensures a[i] == b[i] {
      assert gs[1..][i - 1] == gs[i];
    }
  }

  lemma DropEmptyFirstFlatten(gs: seq<seq<string>>)
    requires |gs| >= 1 && gs[0] == []
    ensures Flatten(gs[1..]) == Flatten(gs)
  {
    assert gs == [[]] + gs[1..];
    FlattenCons([], gs[1..]);
  }

  /** `split_text` loses, duplicates and reorders nothing: joining its chunks
      with "\n\n" gives the text back, except that a first paragraph over the
      budget brings in the empty leading chunk and so one extra "\n\n". */
  lemma SplitTextRoundTrip(text: string, tokens: TokenCounter, maxTokens: int)
    ensures Join(ParagraphSep, SplitText(text, tokens, maxTokens))
         == if tokens(Paragraphs(text)[0]) > maxTokens then ParagraphSep + text else text
  {
    var gs := SplitGroups(text, tokens, maxTokens);
    var chunks := JoinEach(gs);
    if gs[0] == [] {
      DropEmptyFirst(gs);
      var rest := gs[1..];
      assert forall i :: 0 <= i < |rest| ==> rest[i] == gs[i + 1];
      JoinEachFlatten(rest);
      assert chunks == [""] + JoinEach(rest);
      assert chunks[1..] == JoinEach(rest);
      assert Join(ParagraphSep, chunks) == "" + ParagraphSep + Join(ParagraphSep, JoinEach(rest));
    } else {
      JoinEachFlatten(gs);
    }
  }

  // ---------------------------------------------------------------------
  // The empty leading chunk, and `split_text` without it.

  /** When the first paragraph alone is over the budget, `split_text` returns
      "" as its first chunk and the chunks no longer join back to the text. */
  lemma SplitTextLeadingEmptyChunk(text: string, tokens: TokenCounter, maxTokens: int)
    requires tokens(Paragraphs(text)[0]) > maxTokens
    ensures SplitText(text, tokens, maxTokens)[0] == ""
    ensures |SplitText(text, tokens, maxTokens)| >= 2
    ensures Join(ParagraphSep, SplitText(text, tokens, maxTokens)) != text
  {
    var gs := SplitGroups(text, tokens, maxTokens);
    SplitTextRoundTrip(text, tokens, maxTokens);
    DropEmptyFirst(gs);
    assert |ParagraphSep + text| != |text|;
  }

  /** A concrete instance: a one-paragraph text of 5 tokens under a budget of
      1 comes back as two chunks, the first one empty. */
  lemma SplitTextLeadingEmptyExample()
    ensures SplitText("x", _ => 5, 1) == ["", "x"]
  {
    var tokens: TokenCounter := _ => 5;
    assert Paragraphs("x") == ["x"];
    var gs := SplitGroups("x", tokens, 1);
    assert Group(["x"], tokens, 1, [], [], 0) == [[], ["x"]] by {
      assert ["x"][1..] == [];
    }
    assert Join(ParagraphSep, ["x"]) == "x";
  }

  /** The loop with the flush guarded by `if current_chunk:` at the point
      where a chunk is closed, as the final flush already is. */
  function GroupGuarded(paras: seq<string>, tokens: TokenCounter, maxTokens: int,
                        done: seq<seq<string>>, current: seq<string>, count: int): seq<seq<string>>
    decreases |paras|
  {
    if |paras| == 0 then
      if current != [] then done + [current] else done
    else
      var t := tokens(paras[0]);
      if count + t > maxTokens && current != [] then
        GroupGuarded(paras[1..], tokens, maxTokens, done + [current], [paras[0]], t)
      else
        GroupGuarded(paras[1..], tokens, maxTokens, done, current + [paras[0]], count + t)
  }

  /** Once a chunk is open the guard never matters. */
  lemma {:induction false} GuardedAgrees(paras: seq<string>, tokens: TokenCounter, maxTokens: int,
                                         done: seq<seq<string>>, current: seq<string>, count: int)
    requires current != []
    ensures GroupGuarded(paras, tokens, maxTokens, done, current, count)
         == Group(paras, tokens, maxTokens, done, current, count)
    decreases |paras|
  {
    if |paras| > 0 {
      var t := tokens(paras[0]);
      if count + t > maxTokens {
        GuardedAgrees(paras[1..], tokens, maxTokens, done + [current], [paras[0]], t);
      } else {
        GuardedAgrees(paras[1..], tokens, maxTokens, done, current + [paras[0]], count + t);
      }
    }
  }

  /** Closed chunks are only ever appended to. */
  lemma {:induction false} GroupKeepsDone(paras: seq<string>, tokens: TokenCounter, maxTokens: int,
                                          done: seq<seq<string>>, current: seq<string>, count: int)
    ensures Group(paras, tokens, maxTokens, done, current, count)
         == done + Group(paras, tokens, maxTokens, [], current, count)
    decreases |paras|
  {
    if |paras| == 0 {
    } else {
      var t := tokens(paras[0]);
      if count + t > maxTokens {
        GroupKeepsDone(paras[1..], tokens, maxTokens, done + [current], [paras[0]], t);
        GroupKeepsDone(paras[1..], tokens, maxTokens, [current], [paras[0]], t);
        assert [] + [current] == [current];
        assert done + [current] + Group(paras[1..], tokens, maxTokens, [], [paras[0]], t)
            == done + ([current] + Group(paras[1..], tokens, maxTokens, [], [paras[0]], t));
      } else {
        GroupKeepsDone(paras[1..], tokens, maxTokens, done, current + [paras[0]], count + t);
        GroupKeepsDone(paras[1..], tokens, maxTokens, [], current + [paras[0]], count + t);
      }
    }
  }

  /** The guarded loop gives the groups of the unguarded one without the
      empty leading group. */
  lemma GuardedDropsLeadingEmpty(text: string, tokens: TokenCounter, maxTokens: int)
    ensures var unguarded := SplitGroups(text, tokens, maxTokens);
      && GroupGuarded(Paragraphs(text), tokens, maxTokens, [], [], 0)
         == (if unguarded[0] == [] then unguarded[1..] else unguarded)
      && (unguarded[0] == [] ==> |unguarded| >= 2 && Flatten(unguarded[1..]) == Flatten(unguarded))
  {
    var ps := Paragraphs(text);
    var p := ps[0];
    var t := tokens(p);
    var unguarded := SplitGroups(text, tokens, maxTokens);
    GuardedAgrees(ps[1..], tokens, maxTokens, [], [p], t);
    GroupFirstTurn(ps, tokens, maxTokens);
    assert GroupGuarded(ps, tokens, maxTokens, [], [], 0)
        == GroupGuarded(ps[1..], tokens, maxTokens, [], [p], t) by {
      assert [] + [p] == [p];
    }
    if t > maxTokens {
      GroupKeepsDone(ps[1..], tokens, maxTokens, [[]], [p], t);
      var rest := Group(ps[1..], tokens, maxTokens, [], [p], t);
      assert unguarded == [[]] + rest;
      assert unguarded[1..] == rest;
      DropEmptyFirst(unguarded);
    }
  }

  /** `split_text` with the guard, as paragraph groups. Every chunk is a
      non-empty run of paragraphs, the budget and greedy properties still
      hold, and it differs from `SplitGroups` only by the empty leading
      group. */
  function SplitGroupsGuarded(text: string, tokens: TokenCounter, maxTokens: int): (gs: seq<seq<string>>)
    ensures |gs| >= 1
    ensures forall i :: 0 <= i < |gs| ==> gs[i] != []
    ensures Flatten(gs) == Paragraphs(text)
    ensures WithinBudget(gs, tokens, maxTokens) && Greedy(gs, tokens, maxTokens)
    ensures var unguarded := SplitGroups(text, tokens, maxTokens);
      gs == if unguarded[0] == [] then unguarded[1..] else unguarded
  {
    GuardedSplitShape(text, tokens, maxTokens);
    GuardedDropsLeadingEmpty(text, tokens, maxTokens);
    GroupGuarded(Paragraphs(text), tokens, maxTokens, [], [], 0)
  }

  /** The contract of `SplitGroupsGuarded`, from its relation to the
      unguarded loop. */
  lemma GuardedSplitShape(text: string, tokens: TokenCounter, maxTokens: int)
    ensures var gs := GroupGuarded(Paragraphs(text), tokens, maxTokens, [], [], 0);
      && |gs| >= 1
      && (forall i :: 0 <= i < |gs| ==> gs[i] != [])
      && Flatten(gs) == Paragraphs(text)
      && WithinBudget(gs, tokens, maxTokens) && Greedy(gs, tokens, maxTokens)
  {
    var unguarded := SplitGroups(text, tokens, maxTokens);
    GuardedDropsLeadingEmpty(text, tokens, maxTokens);
    if unguarded[0] == [] {
      WellFormedTail(unguarded, tokens, maxTokens);
    }
  }

  /** Dropping the first group keeps the budget and greedy properties and
      leaves no empty group. */
  lemma WellFormedTail(gs: seq<seq<string>>, tokens: TokenCounter, maxTokens: int)
    requires |gs| >= 1 && WellFormed(gs, tokens, maxTokens)
    ensures forall i :: 0 <= i < |gs[1..]| ==> gs[1..][i] != []
    ensures WithinBudget(gs[1..], tokens, maxTokens) && Greedy(gs[1..], tokens, maxTokens)
  {
    var tail := gs[1..];
    forall i | 0 <= i < |tail| ensures tail[i] == gs[i + 1] {
    }
    forall i, j | 0 <= i && j == i + 1 && j < |tail| && tail[j] != []
      ensures TokenSum(tail[i], tokens) + tokens(tail[j][0]) > maxTokens
    {
      assert tail[i] == gs[i + 1] && tail[j] == gs[j + 1];
    }
  }

  /** `split_text` with the guard. */
  function SplitTextGuarded(text: string, tokens: TokenCounter, maxTokens: int): (chunks: seq<string>)
    ensures |chunks| >= 1
    ensures Join(ParagraphSep, chunks) == text
  {
    var gs := SplitGroupsGuarded(text, tokens, maxTokens);
    JoinEachFlatten(gs);
    JoinEach(gs)
  }
}
