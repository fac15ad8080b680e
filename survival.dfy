/** The "Siêu thị Tem Phiếu" (ration-coupon supermarket) game: a 30-second
    countdown during which the player clicks items of a fixed catalogue;
    each item can be picked once, an essential item earns 10 points and any
    other item costs 5 (the score never drops below 0). */
module Survival {
  import opened Scoring
  import opened Optional

  /** Length of one round, in seconds. */
  const Duration: int := 30


  datatype SurvivalItem = SurvivalItem(name: string, isEssential: bool)

  /** The transient message shown after a pick. */
  datatype Feedback = Feedback(show: bool, isCorrect: bool, message: string)

  const HiddenFeedback := Feedback(false, false, "")

  /** The messages shown after an essential and after a non-essential pick. */
  const RewardMessage := "+10 điểm!"
  const PenaltyMessage := "-5 điểm!"

  /** The eight catalogue items; the first four are essential. */
  function Catalogue(): (c: seq<SurvivalItem>)
    ensures |c| == 8
  {
    [ SurvivalItem("Gạo", true),
      SurvivalItem("Nước mắm", true),
      SurvivalItem("Vải", true),
      SurvivalItem("Xà phòng", true),
      SurvivalItem("Bánh kẹo", false),
      SurvivalItem("Đồ chơi", false),
      SurvivalItem("Sách vở", false),
      SurvivalItem("Điện thoại", false) ]
  }

  /** How many catalogue items are essential: the first four. */
  const EssentialCount: int := 4

  /** The catalogue names are distinct, and an item is essential exactly
      when it is one of the first four. */
  lemma CatalogueShape()
    ensures NamesDistinct(Catalogue())
    ensures forall i :: 0 <= i < |Catalogue()| ==> (Catalogue()[i].isEssential <==> i < EssentialCount)
  {
    var c := Catalogue();
    assert c[0].name[0] == 'G' && c[1].name[0] == 'N' && c[2].name[0] == 'V' && c[3].name[0] == 'X';
    assert c[4].name[0] == 'B' && c[5].name[0] == 'Đ' && c[6].name[0] == 'S' && c[7].name[0] == 'Đ';
    assert |c[5].name| != |c[7].name|;
  }

  /** No two items of `c` share a name. */
  predicate NamesDistinct(c: seq<SurvivalItem>) {
    forall i, j :: 0 <= i < j < |c| ==> c[i].name != c[j].name
  }

  /** The names of the first `k` items of `c`. */
  function NamesOf(c: seq<SurvivalItem>, k: nat): (r: set<string>)
    requires k <= |c|
    ensures |r| <= k
    ensures forall n :: n in r <==> exists i :: 0 <= i < k && c[i].name == n
  {
    if k == 0 then {} else NamesOf(c, k - 1) + {c[k - 1].name}
  }

  /** The names a player can pick. */
  function CatalogueNames(): (r: set<string>) {
    NamesOf(Catalogue(), |Catalogue()|)
  }

  /** The names of the essential items. */
  function EssentialNames(): (r: set<string>) {
    NamesOf(Catalogue(), EssentialCount)
  }

  // ---------------------------------------------------------------------
  // Sequences without repeated elements

  ghost predicate NoDuplicates<T>(s: seq<T>) {
    forall i, j :: 0 <= i < j < |s| ==> s[i] != s[j]
  }

  ghost function Elements<T>(s: seq<T>): set<T> {
    set x | x in s
  }

  /** A sequence without repetitions has as many elements as its set. */
  lemma {:induction false} NoDuplicatesCard<T>(s: seq<T>)
    requires NoDuplicates(s)
    ensures |Elements(s)| == |s|
  {
    if s != [] {
      var tail := s[1..];
      assert NoDuplicates(tail) by {
        forall i, j | 0 <= i < j < |tail| ensures tail[i] != tail[j] {
          assert tail[i] == s[i + 1] && tail[j] == s[j + 1];
        }
      }
      NoDuplicatesCard(tail);
      assert s[0] !in tail by {
        forall j | 0 <= j < |tail| ensures tail[j] != s[0] {
          assert tail[j] == s[j + 1];
        }
      }
      assert Elements(s) == Elements(tail) + {s[0]} by {
        assert s == [s[0]] + tail;
      }
    }
  }

  /** A sequence without repetitions drawn from a finite set is no longer
      than that set. */
  lemma NoDuplicatesBounded<T>(s: seq<T>, universe: set<T>)
    requires NoDuplicates(s)
    requires forall x :: x in s ==> x in universe
    ensures |s| <= |universe|
  {
    NoDuplicatesCard(s);
    SubsetCard(Elements(s), universe);
  }

  lemma {:induction false} SubsetCard<T>(a: set<T>, b: set<T>)
    requires a <= b
    ensures |a| <= |b|
    decreases a
  {
    if a != {} {
      var x :| x in a;
      SubsetCard(a - {x}, b - {x});
    }
  }

  // ---------------------------------------------------------------------
  // The end-of-game summary

  /** `items.find((i) => i.name === name)`: the first catalogue entry with
      that name, if any. */
  function FindByName(catalogue: seq<SurvivalItem>, name: string): (r: Option<SurvivalItem>)
    ensures r.Some? ==> r.value in catalogue && r.value.name == name
    ensures r.None? ==> forall item :: item in catalogue ==> item.name != name
  {
    if catalogue == [] then None
    else if catalogue[0].name == name then Some(catalogue[0])
    else FindByName(catalogue[1..], name)
  }

  /** `find(...)?.isEssential`: whether the name belongs to an essential
      catalogue item (an unknown name is not essential). */
  predicate IsEssentialIn(catalogue: seq<SurvivalItem>, name: string): (b: bool)
    ensures b ==> exists item :: item in catalogue && item.name == name && item.isEssential
    ensures (forall item :: item in catalogue ==> item.name != name) ==> !b
  {
    var found := FindByName(catalogue, name);
    found.Some? && found.value.isEssential
  }
  predicate IsEssentialName(name: string) {
    IsEssentialIn(Catalogue(), name)
  }

  /** Only the names of the four essential items pass the lookup. */
  lemma EssentialNameIsListed(name: string)
    requires IsEssentialName(name)
    ensures name in EssentialNames()
  {
    CatalogueShape();
    var c := Catalogue();
    var found := FindByName(c, name).value;
    var i :| 0 <= i < |c| && c[i] == found;
    assert c[i].name == name;
  }

  /** Looking up a catalogue item by its name finds that very item, so the
      lookup agrees with the item's own tag. */
  lemma CatalogueItemLookup(item: SurvivalItem)
    requires item in Catalogue()
    ensures IsEssentialName(item.name) <==> item.isEssential
    ensures item.name in CatalogueNames()
  {
    CatalogueShape();
    ItemLookup(Catalogue(), item);
  }

  /** In a catalogue with distinct names, an item's name is listed and its
      lookup agrees with its tag. */
  lemma ItemLookup(c: seq<SurvivalItem>, item: SurvivalItem)
    requires item in c && NamesDistinct(c)
    ensures IsEssentialIn(c, item.name) <==> item.isEssential
    ensures item.name in NamesOf(c, |c|)
  {
    LookupFindsItem(c, item);
    var j :| 0 <= j < |c| && c[j] == item;
  }

  /** In a catalogue whose names are distinct, the lookup by an item's name
      finds that item. */
  lemma {:induction false} LookupFindsItem(catalogue: seq<SurvivalItem>, item: SurvivalItem)
    requires item in catalogue
    requires NamesDistinct(catalogue)
    ensures FindByName(catalogue, item.name) == Some(item)
  {
    if catalogue[0] != item {
      var tail := catalogue[1..];
      assert item in tail;
      var k :| 0 <= k < |tail| && tail[k] == item;
      assert catalogue[0].name != item.name by {
        assert catalogue[k + 1] == item;
      }
      forall i, j | 0 <= i < j < |tail| ensures tail[i].name != tail[j].name {
        assert tail[i] == catalogue[i + 1] && tail[j] == catalogue[j + 1];
      }
      LookupFindsItem(tail, item);
    }
  }

  /** `selectedItems.filter(...)`: the picked names that are essential, in
      the order they were picked. The summary shows its length over 4. */
  function EssentialPicksIn(catalogue: seq<SurvivalItem>, selected: seq<string>): (r: seq<string>)
    ensures |r| <= |selected|
    ensures forall n :: n in r ==> n in selected && IsEssentialIn(catalogue, n)
    ensures forall n :: n in selected && IsEssentialIn(catalogue, n) ==> n in r
  {
    if selected == [] then []
    else
      var rest := EssentialPicksIn(catalogue, selected[..|selected| - 1]);
      var last := selected[|selected| - 1];
      assert selected == selected[..|selected| - 1] + [last];
      if IsEssentialIn(catalogue, last) then rest + [last] else rest
  }

  function EssentialPicks(selected: seq<string>): (r: seq<string>)
    ensures |r| <= |selected|
    ensures forall n :: n in r ==> n in selected && IsEssentialName(n)
    ensures forall n :: n in selected && IsEssentialName(n) ==> n in r
  {
    EssentialPicksIn(Catalogue(), selected)
  }

  /** Picking one more name extends the summary by that name exactly when
      it is essential. */
  lemma EssentialPicksAppend(catalogue: seq<SurvivalItem>, selected: seq<string>, name: string)
    ensures EssentialPicksIn(catalogue, selected + [name])
         == if IsEssentialIn(catalogue, name) then EssentialPicksIn(catalogue, selected) + [name]
            else EssentialPicksIn(catalogue, selected)
  {
    assert (selected + [name])[..|selected|] == selected;
  }

  /** Filtering keeps a sequence free of repetitions. */
  lemma {:induction false} EssentialPicksNoDuplicates(catalogue: seq<SurvivalItem>, selected: seq<string>)
    requires NoDuplicates(selected)
    ensures NoDuplicates(EssentialPicksIn(catalogue, selected))
  {
    if selected != [] {
      var init := selected[..|selected| - 1];
      var last := selected[|selected| - 1];
      assert NoDuplicates(init);
      EssentialPicksNoDuplicates(catalogue, init);
      assert last !in init;
    }
  }

  /** The summary count never exceeds the number of picks, and never
      exceeds 4 when no name was picked twice. */
  lemma EssentialCountBounds(selected: seq<string>)
    requires NoDuplicates(selected)
    ensures |EssentialPicks(selected)| <= |selected|
    ensures |EssentialPicks(selected)| <= EssentialCount
  {
    var picks := EssentialPicks(selected);
    EssentialPicksNoDuplicates(Catalogue(), selected);
    forall n | n in picks ensures n in EssentialNames() {
      EssentialNameIsListed(n);
    }
    NoDuplicatesBounded(picks, EssentialNames());
  }

  // ---------------------------------------------------------------------
  // Game state and its transitions

  datatype SurvivalState = SurvivalState(
    timeLeft: int,
    score: int,
    gameOver: bool,
    selectedItems: seq<string>,
    feedback: Feedback)

  /** The state when the game is mounted. */
  function Initial(): (s: SurvivalState)
    ensures s.timeLeft == Duration && s.score == 0 && !s.gameOver && s.selectedItems == []
    ensures !s.feedback.show && !s.feedback.isCorrect && s.feedback.message == ""
  {
    SurvivalState(Duration, 0, false, [], HiddenFeedback)
  }

  /** What every reachable state satisfies: the clock is within the round
      and is at 0 exactly when the game is over, the score is non-negative
      and earned only by essential picks, and the picks are distinct
      catalogue names. */
  ghost predicate Invariant(s: SurvivalState) {
    && ClockValid(s)
    && 0 <= s.score <= Reward * |EssentialPicks(s.selectedItems)|
    && NoDuplicates(s.selectedItems)
    && (forall n :: n in s.selectedItems ==> n in CatalogueNames())
  }

  /** The clock part of the invariant: within the round, and at 0 exactly
      when the game is over. */
  predicate ClockValid(s: SurvivalState) {
    0 <= s.timeLeft <= Duration && (s.gameOver <==> s.timeLeft == 0)
  }

  /** Whether the countdown effect has a one-second timer pending. */
  predicate TimerArmed(s: SurvivalState) {
    s.timeLeft > 0 && !s.gameOver
  }

  /** One firing of the countdown timer followed by the effect that runs
      on the new state: the clock drops by one second while it is armed,
      and the game ends as soon as the clock reads 0. */
  function TickStep(s: SurvivalState): (r: SurvivalState)
    ensures TimerArmed(s) ==> r.timeLeft == s.timeLeft - 1
    ensures !TimerArmed(s) ==> r.timeLeft == s.timeLeft
    ensures r.gameOver <==> s.gameOver || r.timeLeft == 0
    ensures r.score == s.score && r.selectedItems == s.selectedItems && r.feedback == s.feedback
  {
    if TimerArmed(s) then
      var t := s.timeLeft - 1;
      s.(timeLeft := t, gameOver := t == 0)
    else if s.timeLeft == 0 then
      s.(gameOver := true)
    else
      s
  }

  /** `handleItemClick`: ignored once the game is over or when the item was
      already picked; otherwise the name is appended and scored. */
  function ClickStep(s: SurvivalState, item: SurvivalItem): (r: SurvivalState)
    ensures s.gameOver || item.name in s.selectedItems ==> r == s
    ensures !s.gameOver && item.name !in s.selectedItems ==>
      && r.selectedItems == s.selectedItems + [item.name]
      && r.score == (if item.isEssential then s.score + Reward else Penalized(s.score))
      && r.feedback.show && r.feedback.isCorrect == item.isEssential
      && r.feedback.message == (if item.isEssential then RewardMessage else PenaltyMessage)
      && r.timeLeft == s.timeLeft && r.gameOver == s.gameOver
  {
    if s.gameOver || item.name in s.selectedItems then s
    else if item.isEssential then
      s.(selectedItems := s.selectedItems + [item.name],
         score := Rewarded(s.score),
         feedback := Feedback(true, true, RewardMessage))
    else
      s.(selectedItems := s.selectedItems + [item.name],
         score := Penalized(s.score),
         feedback := Feedback(true, false, PenaltyMessage))
  }

  /** The delayed callback that hides the feedback message. */
  function ClearFeedbackStep(s: SurvivalState): (r: SurvivalState)
    ensures !r.feedback.show && !r.feedback.isCorrect && r.feedback.message == ""
    ensures r.(feedback := s.feedback) == s
  {
    s.(feedback := HiddenFeedback)
  }

  /** `restartGame`: a new round; the feedback message is left as it is. */
  function RestartStep(s: SurvivalState): (r: SurvivalState)
    ensures r == Initial().(feedback := s.feedback)
  {
    SurvivalState(Duration, 0, false, [], s.feedback)
  }

  // ---------------------------------------------------------------------
  // Properties of the transitions

  lemma InitialInvariant()
    ensures Invariant(Initial())
  {
  }

  lemma TickPreservesInvariant(s: SurvivalState)
    requires Invariant(s)
    ensures Invariant(TickStep(s))
  {
  }

  /** A click on a catalogue item keeps every invariant: in particular the
      score stays non-negative and no name is picked twice. */
  lemma ClickPreservesInvariant(s: SurvivalState, item: SurvivalItem)
    requires Invariant(s)
    requires item in Catalogue()
    ensures Invariant(ClickStep(s, item))
  {
    if !s.gameOver && item.name !in s.selectedItems {
      var sel := s.selectedItems + [item.name];
      CatalogueItemLookup(item);
      ClickScoreBound(s.score, s.selectedItems, item);
      AppendNoDuplicates(s.selectedItems, item.name);
      assert forall n :: n in sel ==> n in CatalogueNames();
      var r := ClickStep(s, item);
      assert r.selectedItems == sel && r.timeLeft == s.timeLeft && r.gameOver == s.gameOver;
    }
  }

  /** The score after a new pick stays within what the essential picks
      have earned. */
  lemma ClickScoreBound(score: int, selected: seq<string>, item: SurvivalItem)
    requires 0 <= score <= Reward * |EssentialPicks(selected)|
    requires IsEssentialName(item.name) <==> item.isEssential
    ensures var r := if item.isEssential then Rewarded(score) else Penalized(score);
            0 <= r <= Reward * |EssentialPicks(selected + [item.name])|
  {
    EssentialPicksAppend(Catalogue(), selected, item.name);
  }

  /** Appending a new element keeps a sequence free of repetitions. */
  lemma AppendNoDuplicates<T>(s: seq<T>, x: T)
    requires NoDuplicates(s) && x !in s
    ensures NoDuplicates(s + [x])
  {
    var t := s + [x];
    forall i, j | 0 <= i < j < |t| ensures t[i] != t[j] {
      if j == |t| - 1 {
        assert t[i] in s;
      } else {
        assert t[i] == s[i] && t[j] == s[j];
      }
    }
  }

  lemma ClearFeedbackPreservesInvariant(s: SurvivalState)
    requires Invariant(s)
    ensures Invariant(ClearFeedbackStep(s))
  {
  }

  lemma RestartPreservesInvariant(s: SurvivalState)
    ensures Invariant(RestartStep(s))
  {
  }

  /** Picks are distinct catalogue names, so there are at most eight, and
      the score is earned only by the four essential items: at most 40. */
  lemma ReachableBounds(s: SurvivalState)
    requires Invariant(s)
    ensures |s.selectedItems| <= 8
    ensures |EssentialPicks(s.selectedItems)| <= EssentialCount
    ensures s.score <= EssentialCount * Reward
  {
    NoDuplicatesBounded(s.selectedItems, CatalogueNames());
    EssentialCountBounds(s.selectedItems);
  }

  /** Once the game is over, neither the clock nor a click changes
      anything. */
  lemma GameOverIsFinal(s: SurvivalState, item: SurvivalItem)
    requires s.gameOver
    ensures TickStep(s) == s
    ensures ClickStep(s, item) == s
  {
  }

  /** The state after `n` timer firings with no clicks in between. */
  function Ticks(s: SurvivalState, n: nat): (r: SurvivalState)
    decreases n
  {
    if n == 0 then s else Ticks(TickStep(s), n - 1)
  }

  /** Counting down: `n` ticks take `n` seconds off an armed clock, and the
      game is over exactly when the clock has run out. */
  lemma {:induction false} Countdown(s: SurvivalState, n: nat)
    requires ClockValid(s)
    decreases n
    requires n <= s.timeLeft
    ensures Ticks(s, n).timeLeft == s.timeLeft - n
    ensures Ticks(s, n).gameOver <==> n == s.timeLeft
    ensures Ticks(s, n).score == s.score && Ticks(s, n).selectedItems == s.selectedItems
  {
    if n > 0 {
      Countdown(TickStep(s), n - 1);
    }
  }

  /** Thirty seconds without a click end a fresh round, and the clock
      stops at 0. */
  lemma FullRoundEnds()
    ensures Ticks(Initial(), Duration).timeLeft == 0
    ensures Ticks(Initial(), Duration).gameOver
    ensures TickStep(Ticks(Initial(), Duration)) == Ticks(Initial(), Duration)
  {
    Countdown(Initial(), Duration);
  }

  /** Gạo earns 10, Bánh kẹo then costs 5, and clicking Bánh kẹo again
      changes nothing. */
  lemma PickScenario()
    ensures var s1 := ClickStep(Initial(), Catalogue()[0]);
            var s2 := ClickStep(s1, Catalogue()[4]);
            var s3 := ClickStep(s2, Catalogue()[4]);
            s1.score == 10 && s2.score == 5 && s3 == s2 && s3.selectedItems == ["Gạo", "Bánh kẹo"]
  {
  }

  // ---------------------------------------------------------------------
  // The component, with its state held in fields

  /** The component, its state variables held in fields. Each handler's
      new state is the step function applied to the old one, so the
      invariant lemmas above carry over to every sequence of handler
      calls. */
  class SurvivalGame {
    var timeLeft: int
    var score: int
    var gameOver: bool
    var selectedItems: seq<string>
    var feedback: Feedback

    function State(): SurvivalState
      reads this
    {
      SurvivalState(timeLeft, score, gameOver, selectedItems, feedback)
    }

    /** Mounting the component. */
    constructor ()
      ensures State() == Initial()
    {
      timeLeft := Duration;
      score := 0;
      gameOver := false;
      selectedItems := [];
      feedback := HiddenFeedback;
    }

    /** The countdown timer firing, with the effect that reacts to it. */
    method Tick()
      modifies this
      ensures State() == TickStep(old(State()))
    {
      if timeLeft > 0 && !gameOver {
        timeLeft := timeLeft - 1;
      }
      if timeLeft == 0 {
        gameOver := true;
      }
    }

    method HandleItemClick(item: SurvivalItem)
      modifies this
      ensures State() == ClickStep(old(State()), item)
    {
      if gameOver {
        return;
      }
      if item.name in selectedItems {
        return;
      }
      selectedItems := selectedItems + [item.name];
      if item.isEssential {
        score := score + Reward;
        feedback := Feedback(true, true, RewardMessage);
      } else {
        score := Penalized(score);
        feedback := Feedback(true, false, PenaltyMessage);
      }
    }

    /** The one-second callback that hides the feedback message. */
    method ClearFeedback()
      modifies this
      ensures State() == ClearFeedbackStep(old(State()))
    {
      feedback := HiddenFeedback;
    }

    method RestartGame()
      modifies this
      ensures State() == RestartStep(old(State()))
    {
      timeLeft := Duration;
      score := 0;
      gameOver := false;
      selectedItems := [];
    }
  }
}
