/** Threads that count words into one list, from word_count_p.c: each addition finds or appends its word
    under a mutex. */
module WordCount {
  import opened Common
  import MergeSort

  datatype Entry = Entry(word: string, count: nat)

  /** Where a word is in the list, or the length of the list. */
  function Find(list: seq<Entry>, word: string): (i: nat)
    ensures i <= |list| && (i < |list| ==> list[i].word == word)
    ensures forall j :: 0 <= j < i ==> list[j].word != word
  {
    if list == [] || list[0].word == word then 0 else 1 + Find(list[1..], word)
  }

  /** One more occurrence of a word. */
  function Added(list: seq<Entry>, word: string): seq<Entry> {
    var i := Find(list, word);
    if i < |list| then list[i := list[i].(count := list[i].count + 1)] else list + [Entry(word, 1)]
  }

  /** The list that one thread makes of the words. */
  function Sequential(words: seq<string>): seq<Entry> {
    if words == [] then [] else Added(Sequential(words[..|words| - 1]), words[|words| - 1])
  }

  class WordList {
    var lst: seq<Entry>

    constructor ()
      ensures lst == []
    {
      lst := [];
    }

    /** add_word(), the mutex held. */
    method AddWord(word: string)
      modifies this
      ensures lst == Added(old(lst), word)
    {
      var i := 0;
      while i < |lst| && lst[i].word != word
        invariant 0 <= i <= |lst| && lst == old(lst) && forall j :: 0 <= j < i ==> lst[j].word != word
        decreases |lst| - i
      {
        i := i + 1;
      }
      assert Find(lst, word) == i;
      if i < |lst| {
        lst := lst[i := lst[i].(count := lst[i].count + 1)];
      } else {
        lst := lst + [Entry(word, 1)];
      }
    }
  }

  // ----- any number of threads -----

  /** Where a thread is in add_word(): outside it, scanning at an element, done scanning with the element
      found or none, or about to unlock. */
  datatype Pc = Outside | Scanning(i: nat) | Found(i: nat) | Missing | Unlocking

  datatype Thread = Thread(pc: Pc, todo: seq<string>)

  /** The threads, the list, the holder of the mutex, and the words in the order in which they were counted. */
  datatype State = State(threads: seq<Thread>, list: seq<Entry>, owner: Option<nat>, counted: seq<string>)

  function Start(inputs: seq<seq<string>>): State {
    State(seq(|inputs|, i requires 0 <= i < |inputs| => Thread(Outside, inputs[i])), [], None, [])
  }

  function At(s: State, t: nat, th: Thread): State
    requires t < |s.threads|
  {
    s.(threads := s.threads[t := th])
  }

  /** The next step of thread t, if it can take one. */
  function Step(s: State, t: nat): Option<State> {
    if t >= |s.threads| || s.threads[t].todo == [] then None
    else
      var th := s.threads[t];
      var word := th.todo[0];
      match th.pc
      case Outside =>
        if s.owner == None then Some(At(s, t, th.(pc := Scanning(0))).(owner := Some(t))) else None
      case Scanning(i) =>
        if i >= |s.list| then Some(At(s, t, th.(pc := Missing)))
        else if s.list[i].word == word then Some(At(s, t, th.(pc := Found(i))))
        else Some(At(s, t, th.(pc := Scanning(i + 1))))
      case Found(i) =>
        if i >= |s.list| then None
        else Some(At(s, t, th.(pc := Unlocking)).(
          list := s.list[i := s.list[i].(count := s.list[i].count + 1)], counted := s.counted + [word]))
      case Missing =>
        Some(At(s, t, th.(pc := Unlocking)).(list := s.list + [Entry(word, 1)], counted := s.counted + [word]))
      case Unlocking =>
        Some(At(s, t, Thread(Outside, th.todo[1..])).(owner := None))
  }

  /** The words that a thread has still to count. */
  function Left(th: Thread): seq<string> {
    if th.pc == Unlocking && th.todo != [] then th.todo[1..] else th.todo
  }

  function AllLeft(threads: seq<Thread>): multiset<string> {
    if threads == [] then multiset{} else AllLeft(threads[..|threads| - 1]) + multiset(Left(threads[|threads| - 1]))
  }

  /** What thread t knows, holding the mutex. */
  predicate Knows(list: seq<Entry>, th: Thread) {
    th.pc != Outside ==>
      && th.todo != []
      && match th.pc
         case Scanning(i) => i <= |list| && forall j :: 0 <= j < i ==> list[j].word != th.todo[0]
         case Found(i) => i < |list| && i == Find(list, th.todo[0])
         case Missing => Find(list, th.todo[0]) == |list|
         case _ => true
  }

  /** Only the holder of the mutex is inside add_word(); the list is what one thread would have made of the
      words counted so far; no word is lost or counted twice. */
  ghost predicate Inv(s: State, all: multiset<string>) {
    && (forall t :: 0 <= t < |s.threads| ==> (s.threads[t].pc != Outside <==> s.owner == Some(t)))
    && (s.owner.Some? ==> s.owner.value < |s.threads|)
    && (forall t :: 0 <= t < |s.threads| ==> Knows(s.list, s.threads[t]))
    && s.list == Sequential(s.counted)
    && multiset(s.counted) + AllLeft(s.threads) == all
  }

  lemma Exchange(a: multiset<string>, b: multiset<string>, c: multiset<string>, d: multiset<string>, e: multiset<string>)
    requires a + b == c + d
    ensures (a + e) + b == (c + e) + d
  {
    assert (a + e) + b == (a + b) + e;
    assert (c + e) + d == (c + d) + e;
  }

  lemma Commute(front: multiset<string>, a: multiset<string>, b: multiset<string>)
    ensures (front + a) + b == (front + b) + a
  {
  }

  lemma AllLeftSnoc(front: seq<Thread>, th: Thread)
    ensures AllLeft(front + [th]) == AllLeft(front) + multiset(Left(th))
  {
    assert (front + [th])[..|front|] == front;
  }

  lemma {:induction false} AllLeftUpdate(threads: seq<Thread>, t: nat, th: Thread)
    requires t < |threads|
    ensures AllLeft(threads[t := th]) + multiset(Left(threads[t])) == AllLeft(threads) + multiset(Left(th))
    decreases |threads|
  {
    hide Left, AllLeft;
    var n := |threads| - 1;
    var front, last := threads[..n], threads[n];
    assert threads == front + [last];
    AllLeftSnoc(front, last);
    if t == n {
      assert threads[t := th] == front + [th];
      AllLeftSnoc(front, th);
      Commute(AllLeft(front), multiset(Left(th)), multiset(Left(last)));
    } else {
      AllLeftUpdate(front, t, th);
      assert threads[t := th] == front[t := th] + [last];
      AllLeftSnoc(front[t := th], last);
      Exchange(AllLeft(front[t := th]), multiset(Left(threads[t])), AllLeft(front), multiset(Left(th)),
               multiset(Left(last)));
    }
  }

  lemma FindIs(list: seq<Entry>, word: string, i: nat)
    requires i <= |list| && (i < |list| ==> list[i].word == word) && forall j :: 0 <= j < i ==> list[j].word != word
    ensures Find(list, word) == i
  {
  }

  lemma SequentialSnoc(words: seq<string>, word: string)
    ensures Sequential(words + [word]) == Added(Sequential(words), word)
  {
    assert (words + [word])[..|words|] == words;
  }

  /** A step that counts no word leaves all else as it was. */
  lemma QuietStep(s: State, t: nat, s': State, all: multiset<string>)
    requires Inv(s, all) && t < |s.threads| && Step(s, t) == Some(s') && s'.counted == s.counted && s'.list == s.list
    requires Left(s'.threads[t]) == Left(s.threads[t])
    ensures multiset(s'.counted) + AllLeft(s'.threads) == all
  {
    AllLeftUpdate(s.threads, t, s'.threads[t]);
    assert s'.threads == s.threads[t := s'.threads[t]];
    Cancel(AllLeft(s'.threads), AllLeft(s.threads), multiset(Left(s.threads[t])));
  }

  /** A step that counts a word moves it from what is left to what is counted. */
  lemma CountingStep(s: State, t: nat, s': State, word: string, all: multiset<string>)
    requires multiset(s.counted) + AllLeft(s.threads) == all && s'.counted == s.counted + [word]
    requires t < |s.threads| == |s'.threads| && s'.threads == s.threads[t := s'.threads[t]]
    requires Left(s.threads[t]) == [word] + Left(s'.threads[t])
    ensures multiset(s'.counted) + AllLeft(s'.threads) == all
  {
    AllLeftUpdate(s.threads, t, s'.threads[t]);
    hide Left, AllLeft;
    Move(multiset(s.counted), AllLeft(s.threads), AllLeft(s'.threads), multiset{word},
         multiset(Left(s'.threads[t])), all);
  }

  lemma Move(counted: multiset<string>, left: multiset<string>, left': multiset<string>, word: multiset<string>,
             rest: multiset<string>, all: multiset<string>)
    requires counted + left == all && left' + (word + rest) == left + rest
    ensures (counted + word) + left' == all
  {
    assert left' + (word + rest) == (left' + word) + rest;
    Cancel(left' + word, left, rest);
    assert (counted + word) + left' == counted + (left' + word);
  }

  /** The list after the step is what one thread would have made. */
  lemma StepList(s: State, t: nat, s': State, all: multiset<string>)
    requires Inv(s, all) && Step(s, t) == Some(s')
    ensures s'.list == Sequential(s'.counted)
  {
    var th := s.threads[t];
    if th.pc.Found? || th.pc.Missing? {
      SequentialSnoc(s.counted, th.todo[0]);
      assert Knows(s.list, th);
    }
  }

  /** Only the holder moves while the mutex is held. */
  lemma StepExclusion(s: State, t: nat, s': State, all: multiset<string>)
    requires Inv(s, all) && Step(s, t) == Some(s')
    ensures forall u :: 0 <= u < |s'.threads| ==> (s'.threads[u].pc != Outside <==> s'.owner == Some(u))
    ensures s'.owner.Some? ==> s'.owner.value < |s'.threads|
    ensures forall u :: 0 <= u < |s'.threads| ==> Knows(s'.list, s'.threads[u])
  {
    hide Sequential, AllLeft, Left, Find;
    forall u | 0 <= u < |s'.threads| ensures Knows(s'.list, s'.threads[u]) {
      if u == t {
        StepKnows(s, t, s', all);
      } else {
        assert s'.threads[u] == s.threads[u] && s.threads[u].pc == Outside;
      }
    }
  }

  lemma StepKnows(s: State, t: nat, s': State, all: multiset<string>)
    requires Inv(s, all) && Step(s, t) == Some(s')
    ensures Knows(s'.list, s'.threads[t])
  {
    var th := s.threads[t];
    assert Knows(s.list, th);
    if th.pc.Scanning? {
      var i := th.pc.i;
      if i >= |s.list| || s.list[i].word == th.todo[0] {
        FindIs(s.list, th.todo[0], i);
      }
    }
  }

  lemma StepKeeps(s: State, t: nat, all: multiset<string>)
    requires Inv(s, all) && Step(s, t).Some?
    ensures Inv(Step(s, t).value, all)
  {
    var s' := Step(s, t).value;
    StepList(s, t, s', all);
    StepExclusion(s, t, s', all);
    StepConserves(s, t, s', all);
    hide Knows, Sequential, Find, Step, AllLeft;
  }

  lemma StepConserves(s: State, t: nat, s': State, all: multiset<string>)
    requires Inv(s, all) && Step(s, t) == Some(s')
    ensures multiset(s'.counted) + AllLeft(s'.threads) == all
  {
    var th := s.threads[t];
    assert Knows(s.list, th);
    assert th.todo == [th.todo[0]] + th.todo[1..];
    assert s'.threads == s.threads[t := s'.threads[t]];
    hide Knows, Sequential, Find, AllLeft;
    if th.pc.Found? || th.pc.Missing? {
      CountingStep(s, t, s', th.todo[0], all);
    } else {
      QuietStep(s, t, s', all);
    }
  }

  // ----- whole runs -----

  predicate Runs(s: State, schedule: seq<nat>, end: State)
    decreases |schedule|
  {
    if schedule == [] then s == end
    else Step(s, schedule[0]).Some? && Runs(Step(s, schedule[0]).value, schedule[1..], end)
  }

  lemma {:induction false} RunKeeps(s: State, schedule: seq<nat>, end: State, all: multiset<string>)
    requires Inv(s, all) && Runs(s, schedule, end)
    ensures Inv(end, all)
    decreases |schedule|
  {
    if schedule != [] {
      StepKeeps(s, schedule[0], all);
      hide Inv, Step;
      RunKeeps(Step(s, schedule[0]).value, schedule[1..], end, all);
    }
  }

  predicate Done(s: State) {
    forall t :: 0 <= t < |s.threads| ==> s.threads[t].todo == []
  }

  /** As long as words are left, some thread can take a step. */
  lemma NotStuck(s: State, all: multiset<string>) returns (t: nat)
    requires Inv(s, all) && !Done(s)
    ensures Step(s, t).Some?
  {
    if s.owner.Some? {
      t := s.owner.value;
      assert Knows(s.list, s.threads[t]);
    } else {
      t :| 0 <= t < |s.threads| && s.threads[t].todo != [];
    }
  }

  /** The inputs one after the other. */
  function Concat(inputs: seq<seq<string>>): seq<string> {
    if inputs == [] then [] else Concat(inputs[..|inputs| - 1]) + inputs[|inputs| - 1]
  }

  lemma {:induction false} LeftAtStart(inputs: seq<seq<string>>)
    ensures AllLeft(Start(inputs).threads) == multiset(Concat(inputs))
    decreases |inputs|
  {
    if inputs != [] {
      var n := |inputs| - 1;
      LeftAtStart(inputs[..n]);
      assert Start(inputs).threads[..n] == Start(inputs[..n]).threads;
    }
  }

  lemma {:induction false} NothingLeft(threads: seq<Thread>)
    requires forall t :: 0 <= t < |threads| ==> threads[t].todo == []
    ensures AllLeft(threads) == multiset{}
    decreases |threads|
  {
    if threads != [] {
      NothingLeft(threads[..|threads| - 1]);
    }
  }

  /** When all threads are done, the words counted are those of the inputs, in some order, and the list is
      what one thread makes of them in that order. */
  lemma AllCounted(inputs: seq<seq<string>>, schedule: seq<nat>, end: State)
    requires Runs(Start(inputs), schedule, end) && Done(end)
    ensures multiset(end.counted) == multiset(Concat(inputs)) && end.list == Sequential(end.counted)
  {
    LeftAtStart(inputs);
    hide AllLeft, Concat, Runs;
    assert Inv(Start(inputs), multiset(Concat(inputs)));
    RunKeeps(Start(inputs), schedule, end, multiset(Concat(inputs)));
    NothingLeft(end.threads);
  }

  // ----- every schedule ends -----

  /** The most steps that a thread can still take if the list never gets longer than n. */
  function Steps(th: Thread, n: nat): int {
    |th.todo| * (n + 4)
    - match th.pc
      case Outside => 0
      case Scanning(i) => 1 + i
      case Found(_) => n + 2
      case Missing => n + 2
      case Unlocking => n + 3
  }

  function AllSteps(threads: seq<Thread>, n: nat): int {
    if threads == [] then 0 else AllSteps(threads[..|threads| - 1], n) + Steps(threads[|threads| - 1], n)
  }

  lemma {:induction false} AllStepsUpdate(threads: seq<Thread>, t: nat, th: Thread, n: nat)
    requires t < |threads|
    ensures AllSteps(threads[t := th], n) == AllSteps(threads, n) - Steps(threads[t], n) + Steps(th, n)
    decreases |threads|
  {
    hide Steps;
    var m := |threads| - 1;
    if t == m {
      assert threads[t := th][..m] == threads[..m];
    } else {
      AllStepsUpdate(threads[..m], t, th, n);
      assert threads[t := th][..m] == threads[..m][t := th];
    }
  }

  lemma {:induction false} SequentialShort(words: seq<string>)
    ensures |Sequential(words)| <= |words|
    decreases |words|
  {
    if words != [] {
      SequentialShort(words[..|words| - 1]);
    }
  }

  /** There are never more entries than words. */
  lemma ListShort(s: State, all: multiset<string>)
    requires Inv(s, all)
    ensures |s.list| <= |all|
  {
    SequentialShort(s.counted);
    assert |multiset(s.counted)| + |AllLeft(s.threads)| == |all|;
  }

  lemma NextWord(th: Thread, n: nat)
    requires th.todo != []
    ensures Steps(Thread(Outside, th.todo[1..]), n) == Steps(th.(pc := Outside), n) - (n + 4)
  {
    assert |th.todo| * (n + 4) == (|th.todo| - 1) * (n + 4) + (n + 4);
  }

  lemma StepUsesOne(s: State, t: nat, all: multiset<string>)
    requires Inv(s, all) && Step(s, t).Some?
    ensures Steps(Step(s, t).value.threads[t], |all|) < Steps(s.threads[t], |all|)
  {
    ListShort(s, all);
    assert Knows(s.list, s.threads[t]);
    NextWord(s.threads[t], |all|);
    hide Inv, Knows;
    assert |s.threads[t].todo| > 0;
  }

  lemma StepThreads(s: State, t: nat)
    requires Step(s, t).Some?
    ensures t < |s.threads| == |Step(s, t).value.threads|
    ensures Step(s, t).value.threads == s.threads[t := Step(s, t).value.threads[t]]
  {
  }

  lemma StepDrops(s: State, t: nat, all: multiset<string>)
    requires Inv(s, all) && Step(s, t).Some?
    ensures AllSteps(Step(s, t).value.threads, |all|) < AllSteps(s.threads, |all|)
  {
    hide Inv, Step, Steps, AllSteps;
    var s' := Step(s, t).value;
    StepUsesOne(s, t, all);
    StepThreads(s, t);
    AllStepsUpdate(s.threads, t, s'.threads[t], |all|);
  }

  lemma StepsLeft(s: State, t: nat, all: multiset<string>)
    requires Inv(s, all) && t < |s.threads|
    ensures Steps(s.threads[t], |all|) >= 0
  {
    ListShort(s, all);
    assert Knows(s.list, s.threads[t]);
    var k := |s.threads[t].todo|;
    if k > 0 {
      MulLe(1, k, |all| + 4);
    }
  }

  lemma {:induction false} AllStepsLeft(threads: seq<Thread>, n: nat)
    requires forall t :: 0 <= t < |threads| ==> Steps(threads[t], n) >= 0
    ensures AllSteps(threads, n) >= 0
    decreases |threads|
  {
    hide Steps;
    if threads != [] {
      AllStepsLeft(threads[..|threads| - 1], n);
    }
  }

  lemma {:induction false} RunDrops(s: State, schedule: seq<nat>, end: State, all: multiset<string>)
    requires Inv(s, all) && Runs(s, schedule, end)
    ensures |schedule| <= AllSteps(s.threads, |all|)
    decreases |schedule|
  {
    hide AllSteps, Step, Inv;
    if schedule == [] {
      forall t | 0 <= t < |s.threads| ensures Steps(s.threads[t], |all|) >= 0 {
        StepsLeft(s, t, all);
      }
      AllStepsLeft(s.threads, |all|);
    } else {
      StepKeeps(s, schedule[0], all);
      StepDrops(s, schedule[0], all);
      RunDrops(Step(s, schedule[0]).value, schedule[1..], end, all);
    }
  }

  lemma {:induction false} StepsAtStart(inputs: seq<seq<string>>, n: nat)
    ensures AllSteps(Start(inputs).threads, n) == |Concat(inputs)| * (n + 4)
    decreases |inputs|
  {
    if inputs != [] {
      var m := |inputs| - 1;
      StepsAtStart(inputs[..m], n);
      assert Start(inputs).threads[..m] == Start(inputs[..m]).threads;
      Distribute(|Concat(inputs[..m])|, |inputs[m]|, n + 4);
    }
  }

  lemma Distribute(a: nat, b: nat, c: nat)
    ensures (a + b) * c == a * c + b * c
  {
  }

  /** Every schedule comes to an end, after at most n(n + 4) steps for n words, and one that cannot go on has
      counted every word: no deadlock, and no thread scans forever. */
  lemma SchedulesEnd(inputs: seq<seq<string>>, schedule: seq<nat>, end: State)
    requires Runs(Start(inputs), schedule, end)
    ensures |schedule| <= |Concat(inputs)| * (|Concat(inputs)| + 4)
    ensures (forall t: nat :: Step(end, t) == None) ==> Done(end)
  {
    var all := multiset(Concat(inputs));
    LeftAtStart(inputs);
    hide AllLeft, Concat, Runs, Step, Done;
    assert Inv(Start(inputs), all);
    RunKeeps(Start(inputs), schedule, end, all);
    hide Inv;
    RunDrops(Start(inputs), schedule, end, all);
    StepsAtStart(inputs, |all|);
    if !Done(end) {
      var t := NotStuck(end, all);
    }
  }

  // ----- the result does not depend on the order -----

  /** The entries count exactly the words. */
  ghost predicate Counts(list: seq<Entry>, words: seq<string>) {
    && (forall i, j :: 0 <= i < j < |list| ==> list[i].word != list[j].word)
    && (forall e :: e in list ==> e.count > 0 && e.count == multiset(words)[e.word])
    && (forall w :: w in words ==> Find(list, w) < |list|)
  }

  lemma {:induction false} SequentialCounts(words: seq<string>)
    ensures Counts(Sequential(words), words)
    decreases |words|
  {
    if words != [] {
      var front, word := words[..|words| - 1], words[|words| - 1];
      SequentialCounts(front);
      assert words == front + [word];
      AddedCounts(Sequential(front), front, word);
    }
  }

  lemma AddedCounts(list: seq<Entry>, words: seq<string>, word: string)
    requires Counts(list, words)
    ensures Counts(Added(list, word), words + [word])
  {
    var i, list', words' := Find(list, word), Added(list, word), words + [word];
    assert multiset(words') == multiset(words) + multiset{word};
    if i == |list| {
      assert word !in words;
      assert multiset(words)[word] == 0;
    }
    forall e | e in list' ensures e.count > 0 && e.count == multiset(words')[e.word] {
      var k :| 0 <= k < |list'| && list'[k] == e;
      assert k < |list| ==> list[k] in list;
    }
    forall w | w in words' ensures Find(list', w) < |list'| {
      var k := Find(list, w);
      assert w in words || w == word;
      assert list'[if k < |list| then k else i].word == w;
    }
  }

  lemma EntryIff(list: seq<Entry>, words: seq<string>, e: Entry)
    requires Counts(list, words)
    ensures e in list <==> e.count > 0 && e.count == multiset(words)[e.word]
  {
    if e.count > 0 && e.count == multiset(words)[e.word] {
      assert e.word in multiset(words);
      var i := Find(list, e.word);
      assert list[i] in list && list[i] == e;
    }
  }

  lemma {:induction false} NoRepeats(list: seq<Entry>, e: Entry)
    requires forall i, j :: 0 <= i < j < |list| ==> list[i].word != list[j].word
    ensures multiset(list)[e] == if e in list then 1 else 0
    decreases |list|
  {
    if list != [] {
      var n := |list| - 1;
      NoRepeats(list[..n], e);
      assert list == list[..n] + [list[n]];
      assert e in list <==> e in list[..n] || e == list[n];
    }
  }

  lemma SameWordsSameEntries(a: seq<string>, b: seq<string>)
    requires multiset(a) == multiset(b)
    ensures multiset(Sequential(a)) == multiset(Sequential(b))
  {
    SequentialCounts(a);
    SequentialCounts(b);
    forall e ensures multiset(Sequential(a))[e] == multiset(Sequential(b))[e] {
      EntryIff(Sequential(a), a, e);
      EntryIff(Sequential(b), b, e);
      NoRepeats(Sequential(a), e);
      NoRepeats(Sequential(b), e);
    }
  }

  /** The order tells any two different elements apart. */
  ghost predicate Total(less: (Entry, Entry) -> bool, s: seq<Entry>) {
    MergeSort.StrictWeak(less, s) && forall x, y :: x in s && y in s && x != y ==> less(x, y) || less(y, x)
  }

  lemma {:induction false} SortedUnique(less: (Entry, Entry) -> bool, s: seq<Entry>, t: seq<Entry>)
    requires Total(less, s) && MergeSort.Sorted(less, s) && MergeSort.Sorted(less, t) && multiset(s) == multiset(t)
    ensures s == t
    decreases |s|
  {
    assert |multiset(t)| == |s|;
    if s != [] {
      SameHead(less, s, t);
      SameRest(s, t);
      TotalRest(less, s);
      assert MergeSort.Sorted(less, s[1..]) && MergeSort.Sorted(less, t[1..]);
      hide Total, MergeSort.Sorted;
      SortedUnique(less, s[1..], t[1..]);
      assert s == [s[0]] + s[1..] && t == [t[0]] + t[1..];
    }
  }

  lemma SameRest(s: seq<Entry>, t: seq<Entry>)
    requires s != [] && t != [] && s[0] == t[0] && multiset(s) == multiset(t)
    ensures multiset(s[1..]) == multiset(t[1..])
  {
    assert s == [s[0]] + s[1..] && t == [t[0]] + t[1..];
    assert multiset(s[1..]) == multiset(s) - multiset{s[0]} && multiset(t[1..]) == multiset(t) - multiset{t[0]};
  }

  lemma TotalRest(less: (Entry, Entry) -> bool, s: seq<Entry>)
    requires Total(less, s) && s != []
    ensures Total(less, s[1..])
  {
    assert forall x :: x in s[1..] ==> x in s;
  }

  lemma SameHead(less: (Entry, Entry) -> bool, s: seq<Entry>, t: seq<Entry>)
    requires Total(less, s) && MergeSort.Sorted(less, s) && MergeSort.Sorted(less, t) && multiset(s) == multiset(t)
    requires s != [] && t != []
    ensures s[0] == t[0]
  {
    assert t[0] in multiset(s) && s[0] in multiset(t);
    var i :| 0 <= i < |s| && s[i] == t[0];
    var j :| 0 <= j < |t| && t[j] == s[0];
  }

  lemma SameElements(a: seq<Entry>, b: seq<Entry>)
    requires multiset(a) == multiset(b)
    ensures forall x :: x in a <==> x in b
  {
    forall x ensures x in a <==> x in b {
      assert x in multiset(a) <==> x in multiset(b);
    }
  }

  lemma TotalKept(less: (Entry, Entry) -> bool, a: seq<Entry>, b: seq<Entry>)
    requires Total(less, b) && multiset(a) == multiset(b)
    ensures Total(less, a)
  {
    SameElements(a, b);
    MergeSort.StrictWeakKept(less, b, a);
    hide MergeSort.StrictWeak;
  }

  lemma SortsAgree(less: (Entry, Entry) -> bool, a: seq<Entry>, b: seq<Entry>)
    requires Total(less, a) && Total(less, b) && multiset(a) == multiset(b)
    ensures MergeSort.Sort(less, a) == MergeSort.Sort(less, b)
  {
    MergeSort.SortIsStable(less, a);
    MergeSort.SortIsStable(less, b);
    hide MergeSort.StrictWeak, MergeSort.Sort, MergeSort.Sorted;
    TotalKept(less, MergeSort.Sort(less, a), a);
    SortedUnique(less, MergeSort.Sort(less, a), MergeSort.Sort(less, b));
  }

  /** Whatever the schedule, the sorted list is the one that a single thread reading the inputs one after
      the other would have ended with. */
  lemma ScheduleIndependent(inputs: seq<seq<string>>, schedule: seq<nat>, end: State, less: (Entry, Entry) -> bool)
    requires Runs(Start(inputs), schedule, end) && Done(end)
    requires Total(less, Sequential(Concat(inputs)))
    ensures MergeSort.StrictWeak(less, end.list)
    ensures MergeSort.Sort(less, end.list) == MergeSort.Sort(less, Sequential(Concat(inputs)))
  {
    AllCounted(inputs, schedule, end);
    SameWordsSameEntries(end.counted, Concat(inputs));
    hide Sequential, Runs, Done, Concat, MergeSort.StrictWeak, MergeSort.Sort;
    TotalKept(less, end.list, Sequential(Concat(inputs)));
    SortsAgree(less, end.list, Sequential(Concat(inputs)));
  }
}
