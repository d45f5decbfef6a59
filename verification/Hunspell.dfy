/** Expansion of a Hunspell stem into its surface forms. */
module Hunspell {
  import opened Options

  datatype Atom = Any | Literal(c: char) | Class(chars: string) | NegClass(chars: string)

  datatype Rule = Rule(
    stripChars: nat,
    add: string,
    continuation: seq<string>,
    condition: seq<Atom>,
    unconditional: bool
  )

  /** The affix table: suffix and prefix rules by flag. */
  datatype Aff = Aff(sfx: map<string, seq<Rule>>, pfx: map<string, seq<Rule>>)

  const MAX_DEPTH := 4

  predicate MatchAtom(atom: Atom, c: char) {
    match atom
    case Any => true
    case Literal(l) => l == c
    case Class(chars) => c in chars
    case NegClass(chars) => c !in chars
  }

  /** `word` minus its last `stripChars`, plus the rule's ending, where the condition fits the word's end. */
  function ApplySfx(word: string, rule: Rule): Option<string> {
    var n := |rule.condition|;
    if !rule.unconditional
       && (|word| < n || exists i :: 0 <= i < n && !MatchAtom(rule.condition[i], word[|word| - n + i]))
    then None
    else if |word| < rule.stripChars then None
    else Some(word[..|word| - rule.stripChars] + rule.add)
  }

  /** The same at the front of the word. */
  function ApplyPfx(word: string, rule: Rule): Option<string> {
    var n := |rule.condition|;
    if !rule.unconditional && (|word| < n || exists i :: 0 <= i < n && !MatchAtom(rule.condition[i], word[i]))
    then None
    else if |word| < rule.stripChars then None
    else Some(rule.add + word[rule.stripChars..])
  }

  /** The condition asks something of each character of `end`, and of nothing else. */
  ghost predicate Fits(condition: seq<Atom>, end: string) {
    |condition| == |end| && forall i :: 0 <= i < |end| ==> MatchAtom(condition[i], end[i])
  }

  /** A suffix rule replaces an ending, of words that end as its condition asks. */
  lemma SuffixRule(word: string, rule: Rule, form: string)
    ensures ApplySfx(word, rule) == Some(form)
       <==> (exists kept, stripped ::
               word == kept + stripped && |stripped| == rule.stripChars && form == kept + rule.add)
            && (rule.unconditional || exists before, end :: word == before + end && Fits(rule.condition, end))
  {
    var n := |rule.condition|;
    if |word| >= rule.stripChars {
      assert word == word[..|word| - rule.stripChars] + word[|word| - rule.stripChars..];
    }
    if |word| >= n {
      assert word == word[..|word| - n] + word[|word| - n..];
    }
    forall before, end | word == before + end && |end| == n ensures end == word[|word| - n..] {
    }
  }

  /** A prefix rule replaces a beginning, of words that begin as its condition asks. */
  lemma PrefixRule(word: string, rule: Rule, form: string)
    ensures ApplyPfx(word, rule) == Some(form)
       <==> (exists stripped, kept ::
               word == stripped + kept && |stripped| == rule.stripChars && form == rule.add + kept)
            && (rule.unconditional || exists begin, after :: word == begin + after && Fits(rule.condition, begin))
  {
    var n := |rule.condition|;
    if |word| >= rule.stripChars {
      assert word == word[..rule.stripChars] + word[rule.stripChars..];
    }
    if |word| >= n {
      assert word == word[..n] + word[n..];
    }
    forall begin, after | word == begin + after && |begin| == n ensures begin == word[..n] {
    }
  }

  method ApplySuffix(word: string, rule: Rule) returns (form: Option<string>)
    ensures form == ApplySfx(word, rule)
  {
    if !rule.unconditional {
      if |word| < |rule.condition| {
        return None;
      }
      var start := |word| - |rule.condition|;
      for i := 0 to |rule.condition|
        invariant forall k :: 0 <= k < i ==> MatchAtom(rule.condition[k], word[start + k])
      {
        if !MatchAtom(rule.condition[i], word[start + i]) {
          return None;
        }
      }
    }
    if |word| < rule.stripChars {
      return None;
    }
    return Some(word[..|word| - rule.stripChars] + rule.add);
  }

  method ApplyPrefix(word: string, rule: Rule) returns (form: Option<string>)
    ensures form == ApplyPfx(word, rule)
  {
    if !rule.unconditional {
      if |word| < |rule.condition| {
        return None;
      }
      for i := 0 to |rule.condition|
        invariant forall k :: 0 <= k < i ==> MatchAtom(rule.condition[k], word[k])
      {
        if !MatchAtom(rule.condition[i], word[i]) {
          return None;
        }
      }
    }
    if |word| < rule.stripChars {
      return None;
    }
    return Some(rule.add + word[rule.stripChars..]);
  }

  // ---- Derivations ----

  /** One use of a rule, at one end of a word. */
  datatype Link = Suffix(rule: Rule) | Prefix(rule: Rule)

  function ApplyLink(word: string, link: Link): Option<string> {
    match link
    case Suffix(rule) => ApplySfx(word, rule)
    case Prefix(rule) => ApplyPfx(word, rule)
  }

  function Suffixes(rules: seq<Rule>): seq<Link> {
    seq(|rules|, i requires 0 <= i < |rules| => Suffix(rules[i]))
  }

  function Prefixes(rules: seq<Rule>): seq<Link> {
    seq(|rules|, i requires 0 <= i < |rules| => Prefix(rules[i]))
  }

  function LinksOf(aff: Aff, flag: string): seq<Link> {
    (if flag in aff.sfx then Suffixes(aff.sfx[flag]) else [])
    + (if flag in aff.pfx then Prefixes(aff.pfx[flag]) else [])
  }

  /** Every rule use the flags license, in the order they are tried. */
  function Links(aff: Aff, flags: seq<string>): seq<Link> {
    if flags == [] then [] else Links(aff, flags[..|flags| - 1]) + LinksOf(aff, flags[|flags| - 1])
  }

  /** The flags in force after a chain: the entry's own, then each rule's continuation. */
  ghost function Offers(flags: seq<string>, chain: seq<Link>): seq<string> {
    if chain == [] then flags else chain[|chain| - 1].rule.continuation
  }

  /** `chain` leads from `stem` to `form`, every rule licensed by the one before it. */
  ghost predicate Derives(aff: Aff, stem: string, flags: seq<string>, chain: seq<Link>, form: string) {
    if chain == [] then form == stem
    else
      var init, last := chain[..|chain| - 1], chain[|chain| - 1];
      && last in Links(aff, Offers(flags, init))
      && exists word :: Derives(aff, stem, flags, init, word) && ApplyLink(word, last) == Some(form)
  }

  ghost predicate Derivable(aff: Aff, stem: string, flags: seq<string>, form: string) {
    exists chain :: |chain| <= MAX_DEPTH + 1 && Derives(aff, stem, flags, chain, form)
  }

  // ---- The worklist ----

  datatype Item = Item(word: string, flags: seq<string>, depth: nat)

  /** Forms found, words still to expand (a stack), and words already expanded. */
  datatype Work = Work(out: set<string>, frontier: seq<Item>, expanded: seq<Item>)

  /** One rule use on one word: a form seen before is neither added nor queued. */
  function Offer(work: Work, item: Item, link: Link): Work {
    match ApplyLink(item.word, link)
    case None => work
    case Some(form) =>
      if form in work.out then work
      else
        var next := Item(form, link.rule.continuation, item.depth + 1);
        var queue := link.rule.continuation != [] && item.depth < MAX_DEPTH;
        work.(out := work.out + {form}, frontier := if queue then work.frontier + [next] else work.frontier)
  }

  function Absorb(work: Work, item: Item, links: seq<Link>): Work {
    if links == [] then work
    else Offer(Absorb(work, item, links[..|links| - 1]), item, links[|links| - 1])
  }

  /** Pop the word queued last and try everything its flags license. */
  function Turn(aff: Aff, work: Work): Work
    requires work.frontier != []
  {
    var item := work.frontier[|work.frontier| - 1];
    var popped := Work(work.out, work.frontier[..|work.frontier| - 1], work.expanded + [item]);
    Absorb(popped, item, Links(aff, item.flags))
  }

  // ---- Termination: cyclic flags only ever push deeper items ----

  predicate Capped(frontier: seq<Item>) {
    forall item :: item in frontier ==> item.depth <= MAX_DEPTH
  }

  function Count(frontier: seq<Item>, depth: nat): nat {
    if frontier == [] then 0
    else Count(frontier[..|frontier| - 1], depth) + if frontier[|frontier| - 1].depth == depth then 1 else 0
  }

  lemma {:induction false} AbsorbPushesDeeper(work: Work, item: Item, links: seq<Link>)
    requires Capped(work.frontier) && item.depth <= MAX_DEPTH
    ensures Capped(Absorb(work, item, links).frontier)
    ensures forall d: nat :: d != item.depth + 1 ==>
        Count(Absorb(work, item, links).frontier, d) == Count(work.frontier, d)
    ensures item.depth == MAX_DEPTH ==> Absorb(work, item, links).frontier == work.frontier
  {
    if links != [] {
      AbsorbPushesDeeper(work, item, links[..|links| - 1]);
      var before := Absorb(work, item, links[..|links| - 1]);
      var after := Offer(before, item, links[|links| - 1]);
      if after.frontier != before.frontier {
        assert after.frontier[..|after.frontier| - 1] == before.frontier;
      }
    }
  }

  lemma TurnMakesProgress(aff: Aff, work: Work)
    requires work.frontier != [] && Capped(work.frontier)
    ensures Capped(Turn(aff, work).frontier)
    ensures var e := work.frontier[|work.frontier| - 1].depth;
            && Count(Turn(aff, work).frontier, e) < Count(work.frontier, e)
            && forall d: nat :: d < e ==> Count(Turn(aff, work).frontier, d) == Count(work.frontier, d)
  {
    var item := work.frontier[|work.frontier| - 1];
    var popped := Work(work.out, work.frontier[..|work.frontier| - 1], work.expanded + [item]);
    AbsorbPushesDeeper(popped, item, Links(aff, item.flags));
  }

  function Run(aff: Aff, work: Work): Work
    requires Capped(work.frontier)
    decreases Count(work.frontier, 0), Count(work.frontier, 1), Count(work.frontier, 2), Count(work.frontier, 3),
              Count(work.frontier, 4)
  {
    if work.frontier == [] then work
    else
      TurnMakesProgress(aff, work);
      Run(aff, Turn(aff, work))
  }

  function Start(stem: string, flags: seq<string>): Work {
    Work({stem}, [Item(stem, flags, 0)], [])
  }

  function Expansion(aff: Aff, stem: string, flags: seq<string>): set<string> {
    Run(aff, Start(stem, flags)).out
  }

  // ---- The loop itself ----

  /** Tries one rule on a word. */
  method TryRule(item: Item, rule: Rule, suffix: bool, out0: set<string>, frontier0: seq<Item>,
      ghost expanded: seq<Item>)
    returns (out: set<string>, frontier: seq<Item>)
    ensures Work(out, frontier, expanded)
         == Offer(Work(out0, frontier0, expanded), item, if suffix then Suffix(rule) else Prefix(rule))
  {
    hide ApplySfx, ApplyPfx;
    out, frontier := out0, frontier0;
    var applied;
    if suffix {
      applied := ApplySuffix(item.word, rule);
    } else {
      applied := ApplyPrefix(item.word, rule);
    }
    if applied.Some? && applied.value !in out {
      out := out + {applied.value};
      if rule.continuation != [] && item.depth < MAX_DEPTH {
        frontier := frontier + [Item(applied.value, rule.continuation, item.depth + 1)];
      }
    }
  }

  /** Tries every rule of one group on a word. */
  method TryRules(
    item: Item, rules: seq<Rule>, suffix: bool, out0: set<string>, frontier0: seq<Item>,
    ghost popped: Work, ghost tried: seq<Link>
  )
    returns (out: set<string>, frontier: seq<Item>)
    requires Work(out0, frontier0, popped.expanded) == Absorb(popped, item, tried)
    ensures Work(out, frontier, popped.expanded)
         == Absorb(popped, item, tried + if suffix then Suffixes(rules) else Prefixes(rules))
  {
    ghost var links := if suffix then Suffixes(rules) else Prefixes(rules);
    assert forall j :: 0 <= j < |rules| ==> links[j] == if suffix then Suffix(rules[j]) else Prefix(rules[j]);
    out, frontier := out0, frontier0;
    hide *;
    assert tried + links[..0] == tried;
    for j := 0 to |rules|
      invariant Work(out, frontier, popped.expanded) == Absorb(popped, item, tried + links[..j])
    {
      AbsorbNext(popped, item, tried, links, j);
      out, frontier := TryRule(item, rules[j], suffix, out, frontier, popped.expanded);
    }
    assert links[..|rules|] == links;
  }

  lemma AbsorbNext(popped: Work, item: Item, tried: seq<Link>, links: seq<Link>, j: nat)
    requires j < |links|
    ensures Absorb(popped, item, tried + links[..j + 1])
         == Offer(Absorb(popped, item, tried + links[..j]), item, links[j])
  {
    assert (tried + links[..j + 1])[..|tried| + j] == tried + links[..j];
  }

  /** Tries everything a popped word's flags license. */
  method ExpandWord(aff: Aff, item: Item, out0: set<string>, frontier0: seq<Item>, ghost expanded: seq<Item>)
    returns (out: set<string>, frontier: seq<Item>)
    ensures Work(out, frontier, expanded) == Absorb(Work(out0, frontier0, expanded), item, Links(aff, item.flags))
  {
    ghost var popped := Work(out0, frontier0, expanded);
    out, frontier := out0, frontier0;
    for i := 0 to |item.flags|
      invariant Work(out, frontier, expanded) == Absorb(popped, item, Links(aff, item.flags[..i]))
    {
      hide *;
      var flag := item.flags[i];
      LinksOneMore(aff, item.flags, i);
      ghost var tried := Links(aff, item.flags[..i]);
      if flag in aff.sfx {
        out, frontier := TryRules(item, aff.sfx[flag], true, out, frontier, popped, tried);
        tried := tried + Suffixes(aff.sfx[flag]);
      }
      if flag in aff.pfx {
        out, frontier := TryRules(item, aff.pfx[flag], false, out, frontier, popped, tried);
        tried := tried + Prefixes(aff.pfx[flag]);
      }
    }
    assert item.flags[..|item.flags|] == item.flags;
  }

  lemma LinksOneMore(aff: Aff, flags: seq<string>, i: nat)
    requires i < |flags|
    ensures var tried := Links(aff, flags[..i]);
            var suffixed := if flags[i] in aff.sfx then tried + Suffixes(aff.sfx[flags[i]]) else tried;
            Links(aff, flags[..i + 1])
            == if flags[i] in aff.pfx then suffixed + Prefixes(aff.pfx[flags[i]]) else suffixed
  {
    hide Suffixes, Prefixes;
    assert flags[..i + 1][..i] == flags[..i];
  }

  /** All the forms of `stem`, the bare stem included. */
  method Expand(aff: Aff, stem: string, flags: seq<string>) returns (out: set<string>)
    ensures out == Expansion(aff, stem, flags)
  {
    out := {stem};
    var frontier := [Item(stem, flags, 0)];
    ghost var expanded := [];
    while |frontier| > 0
      invariant Capped(frontier)
      invariant Run(aff, Work(out, frontier, expanded)).out == Expansion(aff, stem, flags)
      decreases Count(frontier, 0), Count(frontier, 1), Count(frontier, 2), Count(frontier, 3), Count(frontier, 4)
    {
      ghost var work := Work(out, frontier, expanded);
      TurnMakesProgress(aff, work);
      var item := frontier[|frontier| - 1];
      frontier := frontier[..|frontier| - 1];
      expanded := expanded + [item];
      out, frontier := ExpandWord(aff, item, out, frontier, expanded);
      assert Work(out, frontier, expanded) == Turn(aff, work);
    }
  }

  // ---- Every form is derived ----

  /** Forms are derivable, and each word waiting was reached by a chain as long as its depth. */
  ghost predicate Sound(aff: Aff, stem: string, flags: seq<string>, work: Work) {
    && Capped(work.frontier)
    && (forall form :: form in work.out ==> Derivable(aff, stem, flags, form))
    && (forall item :: item in work.frontier ==> Reached(aff, stem, flags, item))
  }

  ghost predicate Reached(aff: Aff, stem: string, flags: seq<string>, item: Item) {
    exists chain :: |chain| == item.depth && Derives(aff, stem, flags, chain, item.word)
        && Offers(flags, chain) == item.flags
  }

  lemma ExtendChain(aff: Aff, stem: string, flags: seq<string>, chain: seq<Link>, word: string, link: Link,
      form: string)
    requires Derives(aff, stem, flags, chain, word)
    requires link in Links(aff, Offers(flags, chain)) && ApplyLink(word, link) == Some(form)
    ensures Derives(aff, stem, flags, chain + [link], form)
    ensures Offers(flags, chain + [link]) == link.rule.continuation
  {
    var longer := chain + [link];
    assert longer[..|longer| - 1] == chain;
  }

  lemma OfferIsSound(aff: Aff, stem: string, flags: seq<string>, work: Work, item: Item, link: Link)
    requires Sound(aff, stem, flags, work)
    requires item.depth <= MAX_DEPTH && Reached(aff, stem, flags, item)
    requires link in Links(aff, item.flags)
    ensures Sound(aff, stem, flags, Offer(work, item, link))
  {
    hide Derives, Links, ApplyLink, Derivable, Reached;
    if ApplyLink(item.word, link).Some? {
      OneLinkMore(aff, stem, flags, item, link);
    }
  }

  lemma OneLinkMore(aff: Aff, stem: string, flags: seq<string>, item: Item, link: Link)
    requires item.depth <= MAX_DEPTH && Reached(aff, stem, flags, item)
    requires link in Links(aff, item.flags) && ApplyLink(item.word, link).Some?
    ensures Derivable(aff, stem, flags, ApplyLink(item.word, link).value)
    ensures Reached(aff, stem, flags, Item(ApplyLink(item.word, link).value, link.rule.continuation, item.depth + 1))
  {
    hide Derives, Links, ApplyLink;
    var chain :| |chain| == item.depth && Derives(aff, stem, flags, chain, item.word)
        && Offers(flags, chain) == item.flags;
    ExtendChain(aff, stem, flags, chain, item.word, link, ApplyLink(item.word, link).value);
  }

  lemma {:induction false} AbsorbIsSound(
    aff: Aff, stem: string, flags: seq<string>, work: Work, item: Item, links: seq<Link>
  )
    requires Sound(aff, stem, flags, work)
    requires item.depth <= MAX_DEPTH && Reached(aff, stem, flags, item)
    requires forall link :: link in links ==> link in Links(aff, item.flags)
    ensures Sound(aff, stem, flags, Absorb(work, item, links))
  {
    hide Offer, Sound, Links;
    if links != [] {
      AbsorbIsSound(aff, stem, flags, work, item, links[..|links| - 1]);
      OfferIsSound(aff, stem, flags, Absorb(work, item, links[..|links| - 1]), item, links[|links| - 1]);
    }
  }

  lemma {:induction false} RunIsSound(aff: Aff, stem: string, flags: seq<string>, work: Work)
    requires Sound(aff, stem, flags, work)
    ensures Sound(aff, stem, flags, Run(aff, work))
    decreases Count(work.frontier, 0), Count(work.frontier, 1), Count(work.frontier, 2), Count(work.frontier, 3),
              Count(work.frontier, 4)
  {
    if work.frontier != [] {
      var item := work.frontier[|work.frontier| - 1];
      var popped := Work(work.out, work.frontier[..|work.frontier| - 1], work.expanded + [item]);
      assert item in work.frontier;
      AbsorbIsSound(aff, stem, flags, popped, item, Links(aff, item.flags));
      TurnMakesProgress(aff, work);
      RunIsSound(aff, stem, flags, Turn(aff, work));
    }
  }

  /** Every form is the stem, or comes from it by at most five licensed rules. */
  lemma ExpansionIsSound(aff: Aff, stem: string, flags: seq<string>)
    ensures forall form :: form in Expansion(aff, stem, flags) ==> Derivable(aff, stem, flags, form)
  {
    var start := Start(stem, flags);
    assert Derives(aff, stem, flags, [], stem) && Offers(flags, []) == flags;
    assert Reached(aff, stem, flags, start.frontier[0]);
    assert Derivable(aff, stem, flags, stem);
    RunIsSound(aff, stem, flags, start);
  }

  // ---- What each expanded word contributes ----

  /** `form` is one rule away from some word on the list. */
  ghost predicate OneStep(aff: Aff, items: seq<Item>, form: string) {
    exists i :: 0 <= i < |items| && Yields(aff, items[i], form)
  }

  ghost predicate Yields(aff: Aff, item: Item, form: string) {
    exists link :: link in Links(aff, item.flags) && ApplyLink(item.word, link) == Some(form)
  }

  /** The forms found are the stem and what the expanded words yield: nothing more, nothing missed. */
  ghost predicate Accounted(aff: Aff, stem: string, work: Work) {
    forall form :: form in work.out <==> form == stem || OneStep(aff, work.expanded, form)
  }

  lemma {:induction false} AbsorbGains(work: Work, item: Item, links: seq<Link>)
    ensures Absorb(work, item, links).expanded == work.expanded
    ensures forall form :: form in Absorb(work, item, links).out
              <==> form in work.out || exists link :: link in links && ApplyLink(item.word, link) == Some(form)
  {
    hide ApplyLink;
    if links != [] {
      AbsorbGains(work, item, links[..|links| - 1]);
      assert links == links[..|links| - 1] + [links[|links| - 1]];
    }
  }

  lemma TurnIsAccounted(aff: Aff, stem: string, work: Work)
    requires work.frontier != [] && Accounted(aff, stem, work)
    ensures Accounted(aff, stem, Turn(aff, work))
  {
    hide ApplyLink, Links, Absorb;
    var item := work.frontier[|work.frontier| - 1];
    var popped := Work(work.out, work.frontier[..|work.frontier| - 1], work.expanded + [item]);
    AbsorbGains(popped, item, Links(aff, item.flags));
    forall form
      ensures OneStep(aff, popped.expanded, form) <==> OneStep(aff, work.expanded, form) || Yields(aff, item, form)
    {
      hide Yields;
      if OneStep(aff, work.expanded, form) {
        var i :| 0 <= i < |work.expanded| && Yields(aff, work.expanded[i], form);
        assert Yields(aff, popped.expanded[i], form);
      }
      assert popped.expanded[|work.expanded|] == item;
    }
  }

  lemma {:induction false} RunIsAccounted(aff: Aff, stem: string, work: Work)
    requires Capped(work.frontier) && Accounted(aff, stem, work)
    ensures Accounted(aff, stem, Run(aff, work)) && Run(aff, work).frontier == []
    decreases Count(work.frontier, 0), Count(work.frontier, 1), Count(work.frontier, 2), Count(work.frontier, 3),
              Count(work.frontier, 4)
  {
    hide Accounted, Turn;
    if work.frontier != [] {
      TurnIsAccounted(aff, stem, work);
      TurnMakesProgress(aff, work);
      RunIsAccounted(aff, stem, Turn(aff, work));
    }
  }

  /** The words that were expanded, in the order they were taken off the stack. */
  ghost function Expanded(aff: Aff, stem: string, flags: seq<string>): seq<Item> {
    Run(aff, Start(stem, flags)).expanded
  }

  /** The result is exactly the stem together with every one-step form of every expanded word. */
  lemma ExpansionIsAccounted(aff: Aff, stem: string, flags: seq<string>)
    ensures forall form :: form in Expansion(aff, stem, flags)
              <==> form == stem || OneStep(aff, Expanded(aff, stem, flags), form)
  {
    RunIsAccounted(aff, stem, Start(stem, flags));
  }

  // ---- How complete the result is ----

  /** Some derivation of `form` was followed up: its continuation, if it may go on, is queued or done. */
  ghost predicate Placed(aff: Aff, stem: string, flags: seq<string>, work: Work, form: string) {
    exists chain :: |chain| <= MAX_DEPTH + 1 && Derives(aff, stem, flags, chain, form)
        && FollowedUp(flags, work, chain, form)
  }

  ghost predicate FollowedUp(flags: seq<string>, work: Work, chain: seq<Link>, form: string) {
    Offers(flags, chain) != [] && |chain| <= MAX_DEPTH ==>
      Item(form, Offers(flags, chain), |chain|) in work.frontier + work.expanded
  }

  ghost predicate AllPlaced(aff: Aff, stem: string, flags: seq<string>, work: Work) {
    && (forall form :: form in work.out ==> Placed(aff, stem, flags, work, form))
    && (forall item :: item in work.frontier ==> Reached(aff, stem, flags, item))
    && Capped(work.frontier)
  }

  lemma PlacedStays(aff: Aff, stem: string, flags: seq<string>, work: Work, later: Work, form: string)
    requires Placed(aff, stem, flags, work, form)
    requires forall item :: item in work.frontier + work.expanded ==> item in later.frontier + later.expanded
    ensures Placed(aff, stem, flags, later, form)
  {
    hide Derives;
    var chain :| |chain| <= MAX_DEPTH + 1 && Derives(aff, stem, flags, chain, form)
                 && FollowedUp(flags, work, chain, form);
    assert FollowedUp(flags, later, chain, form);
  }

  lemma OfferPlaces(aff: Aff, stem: string, flags: seq<string>, work: Work, item: Item, link: Link)
    requires AllPlaced(aff, stem, flags, work)
    requires item.depth <= MAX_DEPTH && Reached(aff, stem, flags, item) && link in Links(aff, item.flags)
    ensures AllPlaced(aff, stem, flags, Offer(work, item, link))
  {
    hide Derives, Links, ApplyLink, Placed;
    var applied, after := ApplyLink(item.word, link), Offer(work, item, link);
    if applied.Some? {
      forall form | form in work.out ensures Placed(aff, stem, flags, after, form) {
        PlacedStays(aff, stem, flags, work, after, form);
      }
      if applied.value !in work.out {
        NewFormIsPlaced(aff, stem, flags, after, item, link, applied.value);
      }
    }
  }

  lemma NewFormIsPlaced(
    aff: Aff, stem: string, flags: seq<string>, after: Work, item: Item, link: Link, form: string
  )
    requires item.depth <= MAX_DEPTH && Reached(aff, stem, flags, item)
    requires link in Links(aff, item.flags) && ApplyLink(item.word, link) == Some(form)
    requires link.rule.continuation != [] && item.depth < MAX_DEPTH ==>
               Item(form, link.rule.continuation, item.depth + 1) in after.frontier
    ensures Placed(aff, stem, flags, after, form)
    ensures Reached(aff, stem, flags, Item(form, link.rule.continuation, item.depth + 1))
  {
    hide Derives, Links, ApplyLink;
    var chain :| |chain| == item.depth && Derives(aff, stem, flags, chain, item.word)
                 && Offers(flags, chain) == item.flags;
    ExtendChain(aff, stem, flags, chain, item.word, link, form);
    assert FollowedUp(flags, after, chain + [link], form);
  }

  lemma {:induction false} AbsorbPlaces(
    aff: Aff, stem: string, flags: seq<string>, work: Work, item: Item, links: seq<Link>
  )
    requires AllPlaced(aff, stem, flags, work)
    requires item.depth <= MAX_DEPTH && Reached(aff, stem, flags, item)
    requires forall link :: link in links ==> link in Links(aff, item.flags)
    ensures AllPlaced(aff, stem, flags, Absorb(work, item, links))
  {
    hide Offer, AllPlaced, Links;
    if links != [] {
      AbsorbPlaces(aff, stem, flags, work, item, links[..|links| - 1]);
      OfferPlaces(aff, stem, flags, Absorb(work, item, links[..|links| - 1]), item, links[|links| - 1]);
    }
  }

  lemma TurnPlaces(aff: Aff, stem: string, flags: seq<string>, work: Work)
    requires work.frontier != [] && AllPlaced(aff, stem, flags, work)
    ensures AllPlaced(aff, stem, flags, Turn(aff, work))
  {
    hide Placed, Reached, Links, Absorb;
    var item := work.frontier[|work.frontier| - 1];
    var popped := Work(work.out, work.frontier[..|work.frontier| - 1], work.expanded + [item]);
    assert item in work.frontier;
    assert work.frontier == popped.frontier + [item];
    forall form | form in popped.out ensures Placed(aff, stem, flags, popped, form) {
      PlacedStays(aff, stem, flags, work, popped, form);
    }
    AbsorbPlaces(aff, stem, flags, popped, item, Links(aff, item.flags));
  }

  lemma {:induction false} RunPlaces(aff: Aff, stem: string, flags: seq<string>, work: Work)
    requires Capped(work.frontier) && AllPlaced(aff, stem, flags, work)
    ensures AllPlaced(aff, stem, flags, Run(aff, work))
    decreases Count(work.frontier, 0), Count(work.frontier, 1), Count(work.frontier, 2), Count(work.frontier, 3),
              Count(work.frontier, 4)
  {
    hide AllPlaced, Turn;
    if work.frontier != [] {
      TurnPlaces(aff, stem, flags, work);
      TurnMakesProgress(aff, work);
      RunPlaces(aff, stem, flags, Turn(aff, work));
    }
  }

  /** How a derivation of `form` may go on: the forms one rule more makes of it, if it is followed up. */
  ghost function Prospect(aff: Aff, flags: seq<string>, chain: seq<Link>, form: string): set<string> {
    if |chain| > MAX_DEPTH then {}
    else
      set link | link in Links(aff, Offers(flags, chain)) && ApplyLink(form, link).Some? :: ApplyLink(form, link).value
  }

  /** However a form is derived within the cap, it has the same prospect. */
  ghost predicate Unambiguous(aff: Aff, stem: string, flags: seq<string>) {
    forall a, b, form ::
      && |a| <= MAX_DEPTH + 1 && Derives(aff, stem, flags, a, form)
      && |b| <= MAX_DEPTH + 1 && Derives(aff, stem, flags, b, form)
      ==> Prospect(aff, flags, a, form) == Prospect(aff, flags, b, form)
  }

  /** On an unambiguous entry nothing derivable within the cap is missed. */
  lemma {:induction false} ExpansionIsComplete(aff: Aff, stem: string, flags: seq<string>, chain: seq<Link>,
      form: string)
    requires Unambiguous(aff, stem, flags)
    requires |chain| <= MAX_DEPTH + 1 && Derives(aff, stem, flags, chain, form)
    ensures form in Expansion(aff, stem, flags)
    decreases |chain|
  {
    ExpansionIsAccounted(aff, stem, flags);
    if chain != [] {
      var init, last := chain[..|chain| - 1], chain[|chain| - 1];
      var word :| Derives(aff, stem, flags, init, word) && ApplyLink(word, last) == Some(form);
      ExpansionIsComplete(aff, stem, flags, init, word);
      StartIsPlaced(aff, stem, flags);
      RunPlaces(aff, stem, flags, Start(stem, flags));
      RunIsAccounted(aff, stem, Start(stem, flags));
      var done := Run(aff, Start(stem, flags));
      hide Derives, Run, ApplyLink;
      var item := FollowUp(aff, stem, flags, done, init, word, form);
      assert Yields(aff, item, form);
    }
  }

  lemma StartIsPlaced(aff: Aff, stem: string, flags: seq<string>)
    ensures AllPlaced(aff, stem, flags, Start(stem, flags)) && Accounted(aff, stem, Start(stem, flags))
  {
    var start := Start(stem, flags);
    assert Derives(aff, stem, flags, [], stem) && Offers(flags, []) == flags;
    assert Reached(aff, stem, flags, start.frontier[0]);
    assert FollowedUp(flags, start, [], stem);
  }

  /** Whichever derivation of a word was followed up, it yields what any other has in prospect. */
  lemma FollowUp(
    aff: Aff, stem: string, flags: seq<string>, done: Work, chain: seq<Link>, word: string, form: string
  )
    returns (item: Item)
    requires AllPlaced(aff, stem, flags, done) && done.frontier == [] && Unambiguous(aff, stem, flags)
    requires |chain| <= MAX_DEPTH && Derives(aff, stem, flags, chain, word) && word in done.out
    requires form in Prospect(aff, flags, chain, word)
    ensures item in done.expanded && Yields(aff, item, form)
  {
    hide Derives, ApplyLink;
    assert Placed(aff, stem, flags, done, word);
    var other :| |other| <= MAX_DEPTH + 1 && Derives(aff, stem, flags, other, word)
                 && FollowedUp(flags, done, other, word);
    assert Prospect(aff, flags, chain, word) == Prospect(aff, flags, other, word);
    item := Item(word, Offers(flags, other), |other|);
  }

  /**
   * Ambiguity does lose forms: flag A makes `sx` with nothing to follow, so when flag B makes the same
   * `sx` it is no longer new, its continuation is never queued, and the derivable `sxy` is missed.
   */
  lemma FirstProducerWins() returns (aff: Aff, stem: string, flags: seq<string>, form: string)
    ensures Derivable(aff, stem, flags, form)
    ensures form !in Expansion(aff, stem, flags)
    ensures !Unambiguous(aff, stem, flags)
  {
    var plain, more, last := Rule(0, "x", [], [], true), Rule(0, "x", ["C"], [], true), Rule(0, "y", [], [], true);
    aff := Aff(map["A" := [plain], "B" := [more], "C" := [last]], map[]);
    stem, flags, form := "s", ["A", "B"], "sxy";
    LossyLinks(plain, more, last, aff);
    hide *;
    var chain := LossyChain(aff, flags, plain, more, last);
    OnlyTheStemExpands(aff, flags, plain, more);
    MissedMeansAmbiguous(aff, stem, flags, chain, form);
  }

  lemma MissedMeansAmbiguous(aff: Aff, stem: string, flags: seq<string>, chain: seq<Link>, form: string)
    requires |chain| <= MAX_DEPTH + 1 && Derives(aff, stem, flags, chain, form)
    requires form !in Expansion(aff, stem, flags)
    ensures Derivable(aff, stem, flags, form) && !Unambiguous(aff, stem, flags)
  {
    hide Derives, Expansion, Unambiguous;
    if Unambiguous(aff, stem, flags) {
      ExpansionIsComplete(aff, stem, flags, chain, form);
    }
  }

  lemma LossyChain(aff: Aff, flags: seq<string>, plain: Rule, more: Rule, last: Rule) returns (chain: seq<Link>)
    requires more == Rule(0, "x", ["C"], [], true) && last == Rule(0, "y", [], [], true)
    requires Links(aff, flags) == [Suffix(plain), Suffix(more)] && Links(aff, ["C"]) == [Suffix(last)]
    ensures |chain| == 2 && Derives(aff, "s", flags, chain, "sxy")
  {
    hide Links, ApplyLink, Derives;
    assert "s" + "x" == "sx" && "sx" + "y" == "sxy";
    ApplyPlain("s", more);
    ApplyPlain("sx", last);
    EmptyChain(aff, "s", flags);
    ExtendChain(aff, "s", flags, [], "s", Suffix(more), "sx");
    ExtendChain(aff, "s", flags, [] + [Suffix(more)], "sx", Suffix(last), "sxy");
    chain := [] + [Suffix(more)] + [Suffix(last)];
  }

  lemma EmptyChain(aff: Aff, stem: string, flags: seq<string>)
    ensures Derives(aff, stem, flags, [], stem) && Offers(flags, []) == flags
  {
  }

  lemma ApplyPlain(word: string, rule: Rule)
    requires rule.unconditional && rule.stripChars == 0
    ensures ApplyLink(word, Suffix(rule)) == Some(word + rule.add)
  {
    assert word[..|word|] == word;
  }

  lemma LossyLinks(plain: Rule, more: Rule, last: Rule, aff: Aff)
    requires aff == Aff(map["A" := [plain], "B" := [more], "C" := [last]], map[])
    ensures Links(aff, ["A", "B"]) == [Suffix(plain), Suffix(more)]
    ensures Links(aff, ["C"]) == [Suffix(last)]
  {
    assert ["A", "B"][..1] == ["A"] && ["A"][..0] == [] && ["C"][..0] == [];
    assert LinksOf(aff, "A") == [Suffix(plain)] && LinksOf(aff, "B") == [Suffix(more)]
        && LinksOf(aff, "C") == [Suffix(last)];
    assert Links(aff, ["A"]) == [] + [Suffix(plain)];
  }

  lemma OnlyTheStemExpands(aff: Aff, flags: seq<string>, plain: Rule, more: Rule)
    requires plain == Rule(0, "x", [], [], true) && more == Rule(0, "x", ["C"], [], true)
    requires Links(aff, flags) == [Suffix(plain), Suffix(more)]
    ensures Expansion(aff, "s", flags) == {"s", "sx"}
    ensures "sxy" !in Expansion(aff, "s", flags)
  {
    hide Links, ApplyLink, Absorb, Run, Count, Turn;
    var item, start := Item("s", flags, 0), Start("s", flags);
    var popped, done := Work({"s"}, [], [item]), Work({"s"} + {"sx"}, [], [item]);
    OffersOfStem(item, plain, more, popped, done);
    AbsorbTwo(popped, item, Suffix(plain), Suffix(more));
    TurnOfOne(aff, {"s"}, item);
    RunTurns(aff, start);
    RunTurns(aff, done);
    assert Expansion(aff, "s", flags) == {"s", "sx"};
  }

  lemma OffersOfStem(item: Item, plain: Rule, more: Rule, popped: Work, done: Work)
    requires plain == Rule(0, "x", [], [], true) && more == Rule(0, "x", ["C"], [], true)
    requires item.word == "s" && popped == Work({"s"}, [], [item]) && done == Work({"s"} + {"sx"}, [], [item])
    ensures Offer(popped, item, Suffix(plain)) == done && Offer(done, item, Suffix(more)) == done
  {
    hide ApplyLink;
    assert "s" + "x" == "sx";
    ApplyPlain("s", plain);
    ApplyPlain("s", more);
  }

  lemma AbsorbTwo(work: Work, item: Item, a: Link, b: Link)
    ensures Absorb(work, item, [a, b]) == Offer(Offer(work, item, a), item, b)
  {
    hide Offer;
    assert [a, b][..1] == [a] && [a][..0] == [];
    assert Absorb(work, item, [a]) == Offer(work, item, a);
  }

  lemma TurnOfOne(aff: Aff, out: set<string>, item: Item)
    ensures Turn(aff, Work(out, [item], [])) == Absorb(Work(out, [], [item]), item, Links(aff, item.flags))
  {
    hide Absorb, Links;
    assert [item][..0] == [] && [] + [item] == [item];
  }

  lemma RunTurns(aff: Aff, work: Work)
    requires Capped(work.frontier)
    ensures work.frontier == [] ==> Run(aff, work) == work
    ensures work.frontier != [] ==> Capped(Turn(aff, work).frontier) && Run(aff, work) == Run(aff, Turn(aff, work))
  {
    hide Turn;
    if work.frontier != [] {
      TurnMakesProgress(aff, work);
    }
  }

  // ---- No word is expanded twice ----

  /** The words taken off the stack and still on it are all different, and all among the forms found. */
  ghost predicate Once(work: Work) {
    var all := work.expanded + work.frontier;
    && (forall i, j :: 0 <= i < j < |all| ==> all[i].word != all[j].word)
    && (forall i :: 0 <= i < |all| ==> all[i].word in work.out)
  }

  lemma {:induction false} AbsorbOnce(work: Work, item: Item, links: seq<Link>)
    requires Once(work)
    ensures Once(Absorb(work, item, links))
  {
    hide Once, Offer;
    if links != [] {
      AbsorbOnce(work, item, links[..|links| - 1]);
      OfferOnce(Absorb(work, item, links[..|links| - 1]), item, links[|links| - 1]);
    }
  }

  lemma OfferOnce(work: Work, item: Item, link: Link)
    requires Once(work)
    ensures Once(Offer(work, item, link))
  {
    hide ApplyLink;
    var all, after := work.expanded + work.frontier, Offer(work, item, link);
    var again := after.expanded + after.frontier;
    assert again == all || again == all + [again[|again| - 1]];
    forall i, j | 0 <= i < j < |again| ensures again[i].word != again[j].word {
      assert all[i].word in work.out;
    }
  }

  lemma {:induction false} RunOnce(aff: Aff, work: Work)
    requires Capped(work.frontier) && Once(work)
    ensures Once(Run(aff, work))
    decreases Count(work.frontier, 0), Count(work.frontier, 1), Count(work.frontier, 2), Count(work.frontier, 3),
              Count(work.frontier, 4)
  {
    if work.frontier != [] {
      var item := work.frontier[|work.frontier| - 1];
      var popped := Work(work.out, work.frontier[..|work.frontier| - 1], work.expanded + [item]);
      OncePermutes(work, popped, item);
      hide Once, Absorb;
      AbsorbOnce(popped, item, Links(aff, item.flags));
      TurnMakesProgress(aff, work);
      RunOnce(aff, Turn(aff, work));
    }
  }

  lemma OncePermutes(work: Work, popped: Work, item: Item)
    requires Once(work) && work.frontier == popped.frontier + [item]
    requires popped.expanded == work.expanded + [item] && popped.out == work.out
    ensures Once(popped)
  {
    var all, again := work.expanded + work.frontier, popped.expanded + popped.frontier;
    var n, last := |work.expanded|, |all| - 1;
    assert all[last] == item;
    forall i | 0 <= i < |again| ensures again[i] == all[if i < n then i else if i == n then last else i - 1] {
    }
  }

  /** However flags cycle, no word is expanded twice, and none that is not a form of the result. */
  lemma ExpandedOnce(aff: Aff, stem: string, flags: seq<string>)
    ensures var items := Expanded(aff, stem, flags);
            && (forall i, j :: 0 <= i < j < |items| ==> items[i].word != items[j].word)
            && (forall i :: 0 <= i < |items| ==> items[i].word in Expansion(aff, stem, flags))
  {
    RunOnce(aff, Start(stem, flags));
    RunIsAccounted(aff, stem, Start(stem, flags));
    var done := Run(aff, Start(stem, flags));
    assert done.expanded + done.frontier == done.expanded;
  }
}
