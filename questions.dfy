/**
 * The question deck (TrivialPursuit/Questions.py).
 *
 * Loading groups the CSV records by category, skipping the header row, and
 * gives every question four answers with the first one flagged correct; each
 * category's list is then shuffled and gets a cursor at 0. `ask` takes the
 * question under the cursor, moves the cursor on (wrapping), shuffles that
 * question's answers, finds the 1-based number of the correct one and compares
 * it with the player's choice.
 *
 * Opening the CSV file is left out: the records are an input. `random.shuffle`
 * is modelled by its own loop, `for i from n-1 down to 1: swap x[i], x[j]`,
 * with the random choices of `j` given as `picks`. The message boxes become
 * the input `choice`.
 */
module QuestionDeck {
  import opened Wrappers
  import RoundRobin

  /** An answer option: its text and whether it is the correct one. */
  datatype Answer = Answer(text: string, correct: bool)

  /** A question: its text and its answer options. */
  datatype Question = Question(text: string, answers: seq<Answer>)

  /** One CSV record (category, question, correct, incorrect_1, incorrect_2, incorrect_3). */
  datatype Row = Row(category: string, question: string, correct: string,
                     incorrect1: string, incorrect2: string, incorrect3: string)

  /** The tuple unpacking in the loading loop: every record must have exactly six
      fields, otherwise the source raises ValueError and no deck is built. */
  function ToRows(raw: seq<seq<string>>): (r: Option<seq<Row>>)
    ensures r.Some? <==> forall i :: 0 <= i < |raw| ==> |raw[i]| == 6
    ensures r.Some? ==> |r.value| == |raw|
    ensures r.Some? ==> forall i :: 0 <= i < |raw| ==>
      r.value[i] == Row(raw[i][0], raw[i][1], raw[i][2], raw[i][3], raw[i][4], raw[i][5])
  {
    if raw == [] then Some([])
    else if |raw[0]| != 6 then None
    else match ToRows(raw[1..])
      case None => None
      case Some(rest) =>
        var f := raw[0];
        Some([Row(f[0], f[1], f[2], f[3], f[4], f[5])] + rest)
  }

  /** The question built from one record, with the correct answer first. */
  function MakeQuestion(row: Row): (q: Question)
    ensures q.text == row.question && |q.answers| == 4
    ensures q.answers[0].text == row.correct
    ensures forall k :: 0 <= k < |q.answers| ==> (q.answers[k].correct <==> k == 0)
  {
    Question(row.question, [Answer(row.correct, true), Answer(row.incorrect1, false),
                            Answer(row.incorrect2, false), Answer(row.incorrect3, false)])
  }

  /** Option `k` is flagged correct and no other option is. */
  predicate OnlyCorrectAt(answers: seq<Answer>, k: int) {
    0 <= k < |answers| && answers[k].correct &&
    forall j :: 0 <= j < |answers| && j != k ==> !answers[j].correct
  }

  /** Exactly one answer option is flagged correct. */
  predicate OneCorrect(answers: seq<Answer>) {
    exists k :: 0 <= k < |answers| && OnlyCorrectAt(answers, k)
  }

  /** A stored question: four answer options, exactly one correct. */
  predicate WellFormed(q: Question) {
    |q.answers| == 4 && OneCorrect(q.answers)
  }

  /** A freshly built question has four answers and only the first is correct. */
  lemma MakeQuestionWellFormed(row: Row)
    ensures WellFormed(MakeQuestion(row))
  {
    assert OnlyCorrectAt(MakeQuestion(row).answers, 0);
  }

  // ---------------------------------------------------------------------------
  // Loading

  /** The rows after the header row. */
  function Body(rows: seq<Row>): (b: seq<Row>)
    ensures |rows| > 0 ==> b == rows[1..] && |b| == |rows| - 1
    ensures |rows| == 0 ==> b == []
  {
    if |rows| == 0 then [] else rows[1..]
  }

  /** The dictionary the loading loop has built after appending every row of
      `rows` in turn (the loop's own order: the last row is appended last). */
  function Group(rows: seq<Row>): map<string, seq<Question>>
  {
    if rows == [] then map[]
    else
      var g := Group(rows[..|rows| - 1]);
      var r := rows[|rows| - 1];
      g[r.category := (if r.category in g then g[r.category] else []) + [MakeQuestion(r)]]
  }

  /** Reference definition: the questions of category `c`, in input order. */
  function Filter(rows: seq<Row>, c: string): seq<Question> {
    if rows == [] then []
    else (if rows[0].category == c then [MakeQuestion(rows[0])] else []) + Filter(rows[1..], c)
  }

  /** The categories that occur in `rows`. */
  function CategoriesOf(rows: seq<Row>): set<string> {
    set r | r in rows :: r.category
  }

  lemma {:induction false} FilterAppend(rows: seq<Row>, r: Row, c: string)
    ensures Filter(rows + [r], c) == Filter(rows, c) + Filter([r], c)
  {
    if rows != [] {
      assert (rows + [r])[1..] == rows[1..] + [r];
      FilterAppend(rows[1..], r, c);
    } else {
      assert rows + [r] == [r];
    }
  }

  lemma {:induction false} FilterEmpty(rows: seq<Row>, c: string)
    requires c !in CategoriesOf(rows)
    ensures Filter(rows, c) == []
  {
    if rows != [] {
      assert rows[0] in rows;
      assert CategoriesOf(rows[1..]) <= CategoriesOf(rows) by {
        forall x | x in CategoriesOf(rows[1..]) ensures x in CategoriesOf(rows) {
          var r :| r in rows[1..] && r.category == x;
          assert r in rows;
        }
      }
      FilterEmpty(rows[1..], c);
    }
  }

  /** The dictionary the loop builds has one key per category that occurs, and
      under each key that category's questions in input order. */
  lemma {:induction false} GroupIsFilter(rows: seq<Row>)
    ensures Group(rows).Keys == CategoriesOf(rows)
    ensures forall c :: c in Group(rows) ==> Group(rows)[c] == Filter(rows, c)
  {
    if rows != [] {
      var init, r := rows[..|rows| - 1], rows[|rows| - 1];
      assert rows == init + [r];
      GroupIsFilter(init);
      assert CategoriesOf(rows) == CategoriesOf(init) + {r.category} by {
        forall x | x in CategoriesOf(rows) ensures x in CategoriesOf(init) + {r.category} {
          var y :| y in rows && y.category == x;
          if y != r {
            assert y in init;
          }
        }
        forall x | x in CategoriesOf(init) ensures x in CategoriesOf(rows) {
          var y :| y in init && y.category == x;
          assert y in rows;
        }
      }
      forall c | c in Group(rows) ensures Group(rows)[c] == Filter(rows, c) {
        FilterAppend(init, r, c);
        if c == r.category && c !in Group(init) {
          FilterEmpty(init, c);
        }
      }
    }
  }

  /** Every category in the dictionary has at least one question, and every one
      of them is well formed. */
  lemma {:induction false} GroupWellFormed(rows: seq<Row>)
    ensures forall c :: c in Group(rows) ==> |Group(rows)[c]| > 0
    ensures forall c, k :: c in Group(rows) && 0 <= k < |Group(rows)[c]| ==> WellFormed(Group(rows)[c][k])
  {
    if rows != [] {
      var init, r := rows[..|rows| - 1], rows[|rows| - 1];
      GroupWellFormed(init);
      MakeQuestionWellFormed(r);
    }
  }

  // ---------------------------------------------------------------------------
  // Shuffling

  /** The random choices of one call of `random.shuffle` on `n` items: for
      i = n-1 down to 1, an index j in [0, i]. */
  predicate ValidPicks(picks: seq<nat>, n: nat) {
    |picks| == (if n == 0 then 0 else n - 1) &&
    forall k :: 0 <= k < |picks| ==> picks[k] <= n - 1 - k
  }

  /** One step of `random.shuffle`: `x[i], x[j] = x[j], x[i]`. */
  function Swap<T>(s: seq<T>, i: nat, j: nat): (r: seq<T>)
    requires i < |s| && j < |s|
    ensures |r| == |s|
  {
    s[i := s[j]][j := s[i]]
  }

  /** A swap exchanges the two entries and keeps all others. */
  lemma SwapExchanges<T>(s: seq<T>, i: nat, j: nat)
    requires i < |s| && j < |s|
    ensures Swap(s, i, j)[i] == s[j] && Swap(s, i, j)[j] == s[i]
    ensures forall k :: 0 <= k < |s| && k != i && k != j ==> Swap(s, i, j)[k] == s[k]
  {
  }

  /** A swap only rearranges. */
  lemma SwapPermutes<T>(s: seq<T>, i: nat, j: nat)
    requires i < |s| && j < |s|
    ensures multiset(Swap(s, i, j)) == multiset(s)
  {
  }

  /** The swaps of `random.shuffle` from step `k` on. */
  function ShuffleFrom<T>(s: seq<T>, picks: seq<nat>, k: nat): (r: seq<T>)
    requires ValidPicks(picks, |s|)
    requires k <= |picks|
    ensures |r| == |s|
    decreases |picks| - k
  {
    if k == |picks| then s
    else ShuffleFrom(Swap(s, |s| - 1 - k, picks[k]), picks, k + 1)
  }

  /** `random.shuffle(s)` with the random choices `picks`. */
  function Shuffled<T>(s: seq<T>, picks: seq<nat>): (r: seq<T>)
    requires ValidPicks(picks, |s|)
    ensures |r| == |s|
  {
    ShuffleFrom(s, picks, 0)
  }

  lemma {:induction false} ShuffleFromPermutes<T>(s: seq<T>, picks: seq<nat>, k: nat)
    requires ValidPicks(picks, |s|)
    requires k <= |picks|
    ensures multiset(ShuffleFrom(s, picks, k)) == multiset(s)
    decreases |picks| - k
  {
    if k < |picks| {
      var t := Swap(s, |s| - 1 - k, picks[k]);
      SwapPermutes(s, |s| - 1 - k, picks[k]);
      ShuffleFromPermutes(t, picks, k + 1);
      assert ShuffleFrom(s, picks, k) == ShuffleFrom(t, picks, k + 1);
    }
  }

  /** Shuffling only rearranges: the same elements with the same multiplicities. */
  lemma ShufflePermutes<T>(s: seq<T>, picks: seq<nat>)
    requires ValidPicks(picks, |s|)
    ensures multiset(Shuffled(s, picks)) == multiset(s)
  {
    ShuffleFromPermutes(s, picks, 0);
  }

  lemma SwapKeepsOneCorrect(s: seq<Answer>, i: nat, j: nat)
    requires i < |s| && j < |s|
    requires OneCorrect(s)
    ensures OneCorrect(Swap(s, i, j))
  {
    var k :| 0 <= k < |s| && OnlyCorrectAt(s, k);
    assert s[k].correct && forall m :: 0 <= m < |s| && m != k ==> !s[m].correct;
    var r := Swap(s, i, j);
    SwapExchanges(s, i, j);
    var k' := if k == i then j else if k == j then i else k;
    assert r[k'].correct;
    forall m | 0 <= m < |r| && m != k' ensures !r[m].correct {
      if m == i {
        assert r[m] == s[j];
      } else if m == j {
        assert r[m] == s[i];
      } else {
        assert r[m] == s[m];
      }
    }
    assert OnlyCorrectAt(r, k');
  }

  lemma {:induction false} ShuffleFromKeepsOneCorrect(s: seq<Answer>, picks: seq<nat>, k: nat)
    requires ValidPicks(picks, |s|)
    requires k <= |picks|
    requires OneCorrect(s)
    ensures OneCorrect(ShuffleFrom(s, picks, k))
    decreases |picks| - k
  {
    if k < |picks| {
      var t := Swap(s, |s| - 1 - k, picks[k]);
      SwapKeepsOneCorrect(s, |s| - 1 - k, picks[k]);
      assert |t| == |s|;
      ShuffleFromKeepsOneCorrect(t, picks, k + 1);
      assert ShuffleFrom(s, picks, k) == ShuffleFrom(t, picks, k + 1);
    }
  }

  /** Shuffling a question's answers leaves it with four answers, exactly one correct. */
  lemma ShuffleKeepsWellFormed(q: Question, picks: seq<nat>)
    requires WellFormed(q)
    requires ValidPicks(picks, 4)
    ensures WellFormed(Question(q.text, Shuffled(q.answers, picks)))
  {
    ShuffleFromKeepsOneCorrect(q.answers, picks, 0);
  }

  // ---------------------------------------------------------------------------
  // Asking

  /** The loop of `ask` that numbers the options from 1 and remembers the number
      of the option flagged correct (the last such one; 1 if none is). */
  method CorrectNumber(answers: seq<Answer>) returns (correct: int)
    ensures (forall k :: 0 <= k < |answers| ==> !answers[k].correct) ==> correct == 1
    ensures (exists k :: 0 <= k < |answers| && answers[k].correct) ==>
      1 <= correct <= |answers| && answers[correct - 1].correct &&
      forall k :: correct <= k < |answers| ==> !answers[k].correct
    ensures OneCorrect(answers) ==>
      1 <= correct <= |answers| && forall k :: 0 <= k < |answers| ==> (answers[k].correct <==> k == correct - 1)
  {
    var number := 1;
    correct := 1;
    var i := 0;
    while i < |answers|
      invariant 0 <= i <= |answers|
      invariant number == i + 1
      invariant (forall k :: 0 <= k < i ==> !answers[k].correct) ==> correct == 1
      invariant (exists k :: 0 <= k < i && answers[k].correct) ==>
        1 <= correct <= i && answers[correct - 1].correct &&
        forall k :: correct <= k < i ==> !answers[k].correct
    {
      if answers[i].correct {
        correct := number;
      }
      number := number + 1;
      i := i + 1;
    }
  }

  /** A deck in a usable state: a cursor per category, inside a non-empty list of
      well-formed questions. */
  ghost predicate ValidDeck(questions: map<string, seq<Question>>, location: map<string, int>) {
    location.Keys == questions.Keys &&
    forall c :: c in questions ==>
      |questions[c]| > 0 && 0 <= location[c] < |questions[c]| &&
      forall k :: 0 <= k < |questions[c]| ==> WellFormed(questions[c][k])
  }

  /** Replacing one category's list and cursor by a valid pair keeps the deck valid. */
  lemma UpdateKeepsValid(questions: map<string, seq<Question>>, location: map<string, int>,
                         c: string, deck: seq<Question>, cursor: int)
    requires ValidDeck(questions, location)
    requires c in questions
    requires |deck| > 0 && 0 <= cursor < |deck|
    requires forall k :: 0 <= k < |deck| ==> WellFormed(deck[k])
    ensures ValidDeck(questions[c := deck], location[c := cursor])
  {
  }

  /** The loading loop of `__init__`: skip the header row, then append each
      record's question to its category's list, creating the list on first use. */
  method LoadRows(rows: seq<Row>) returns (questions: map<string, seq<Question>>)
    ensures questions.Keys == CategoriesOf(Body(rows))
    ensures forall c :: c in questions ==> questions[c] == Filter(Body(rows), c)
    ensures forall c :: c in questions ==> |questions[c]| > 0
    ensures forall c, k :: c in questions && 0 <= k < |questions[c]| ==> WellFormed(questions[c][k])
  {
    questions := map[];
    var first := true;
    var i := 0;
    while i < |rows|
      invariant 0 <= i <= |rows|
      invariant first <==> i == 0
      invariant questions == Group(Body(rows[..i]))
    {
      if !first {
        var r := rows[i];
        GroupStep(rows, i);
        var list := if r.category in questions then questions[r.category] else [];
        questions := questions[r.category := list + [MakeQuestion(r)]];
      } else {
        assert rows[..1] == [rows[0]];
        first := false;
      }
      i := i + 1;
    }
    assert rows[..|rows|] == rows;
    GroupIsFilter(Body(rows));
    GroupWellFormed(Body(rows));
  }

  /** One step of the loading loop: a non-header record is appended to the
      dictionary built from the records before it. */
  lemma GroupStep(rows: seq<Row>, i: int)
    requires 0 < i < |rows|
    ensures var g := Group(Body(rows[..i]));
      Group(Body(rows[..i + 1])) ==
        g[rows[i].category := (if rows[i].category in g then g[rows[i].category] else []) + [MakeQuestion(rows[i])]]
  {
    var b := Body(rows[..i + 1]);
    assert b == Body(rows[..i]) + [rows[i]];
    assert b[..|b| - 1] == Body(rows[..i]);
  }

  /** The shuffle loop of `__init__`: every category gets a cursor at 0 and its
      list shuffled with the choices `deckPicks[c]`, in any order of the keys. */
  method ShuffleDecks(loaded: map<string, seq<Question>>, deckPicks: map<string, seq<nat>>)
    returns (questions: map<string, seq<Question>>, location: map<string, int>)
    requires forall c :: c in loaded ==> c in deckPicks && ValidPicks(deckPicks[c], |loaded[c]|)
    ensures questions.Keys == location.Keys == loaded.Keys
    ensures forall c :: c in location ==> location[c] == 0
    ensures forall c :: c in questions ==> questions[c] == Shuffled(loaded[c], deckPicks[c])
  {
    questions := loaded;
    location := map[];
    var pending := questions.Keys;
    while pending != {}
      invariant pending <= questions.Keys
      invariant questions.Keys == loaded.Keys
      invariant location.Keys == loaded.Keys - pending
      invariant forall c :: c in location ==> location[c] == 0
      invariant forall c :: c in questions ==>
        questions[c] == if c in pending then loaded[c] else Shuffled(loaded[c], deckPicks[c])
      decreases pending
    {
      var c :| c in pending;
      assert questions[c] == loaded[c];
      location := location[c := 0];
      questions := questions[c := Shuffled(loaded[c], deckPicks[c])];
      pending := pending - {c};
    }
  }

  /** Shuffling every list of a loaded deck and putting every cursor at 0 gives a valid deck. */
  lemma ShuffledDeckValid(loaded: map<string, seq<Question>>, deckPicks: map<string, seq<nat>>,
                          questions: map<string, seq<Question>>, location: map<string, int>)
    requires forall c :: c in loaded ==> |loaded[c]| > 0
    requires forall c, k :: c in loaded && 0 <= k < |loaded[c]| ==> WellFormed(loaded[c][k])
    requires forall c :: c in loaded ==> c in deckPicks && ValidPicks(deckPicks[c], |loaded[c]|)
    requires questions.Keys == location.Keys == loaded.Keys
    requires forall c :: c in location ==> location[c] == 0
    requires forall c :: c in questions ==> questions[c] == Shuffled(loaded[c], deckPicks[c])
    ensures ValidDeck(questions, location)
  {
    forall c | c in questions
      ensures forall k :: 0 <= k < |questions[c]| ==> WellFormed(questions[c][k])
    {
      ShufflePermutes(loaded[c], deckPicks[c]);
      forall k | 0 <= k < |questions[c]| ensures WellFormed(questions[c][k]) {
        assert questions[c][k] in multiset(loaded[c]);
      }
    }
  }

  class Questions {
    /** Category to its list of questions. */
    var questions: map<string, seq<Question>>
    /** Category to the index of the next question to ask. */
    var location: map<string, int>

    ghost predicate Valid()
      reads this
    {
      ValidDeck(questions, location)
    }

    /** `__init__` over the records `rows` (the header included); `deckPicks[c]`
        are the random choices of the shuffle of category `c`. */
    constructor (rows: seq<Row>, deckPicks: map<string, seq<nat>>)
      requires forall c :: c in CategoriesOf(Body(rows)) ==>
        c in deckPicks && ValidPicks(deckPicks[c], |Filter(Body(rows), c)|)
      ensures Valid()
      ensures questions.Keys == CategoriesOf(Body(rows))
      ensures forall c :: c in questions ==> location[c] == 0
      ensures forall c :: c in questions ==>
        ValidPicks(deckPicks[c], |Filter(Body(rows), c)|) &&
        questions[c] == Shuffled(Filter(Body(rows), c), deckPicks[c])
      ensures forall c :: c in questions ==> multiset(questions[c]) == multiset(Filter(Body(rows), c))
    {
      var loaded := LoadRows(rows);
      var shuffled, cursors := ShuffleDecks(loaded, deckPicks);
      ShuffledDeckValid(loaded, deckPicks, shuffled, cursors);
      forall c | c in shuffled
        ensures multiset(shuffled[c]) == multiset(Filter(Body(rows), c))
      {
        ShufflePermutes(loaded[c], deckPicks[c]);
      }
      questions := shuffled;
      location := cursors;
    }

    /** `ask(category)`: `picks` are the random choices of the answer shuffle and
        `choice` the number the player picked. A category without questions makes
        the source raise KeyError before anything changes: the result is None. */
    method Ask(category: string, picks: seq<nat>, choice: int) returns (r: Option<bool>)
      requires Valid()
      requires ValidPicks(picks, 4)
      modifies this
      ensures Valid()
      ensures category !in old(questions) ==>
        r == None && questions == old(questions) && location == old(location)
      ensures category in old(questions) ==>
        var deck := old(questions[category]);
        var i := old(location[category]);
        var shuffled := Shuffled(deck[i].answers, picks);
        questions == old(questions)[category := deck[i := Question(deck[i].text, shuffled)]] &&
        location == old(location)[category := RoundRobin.Next(i, |deck|)] &&
        r == Some(1 <= choice <= 4 && shuffled[choice - 1].correct)
    {
      if category !in location {
        return None;
      }
      var deck := questions[category];
      var index := location[category];
      var next := index + 1;
      if next >= |deck| {
        next := 0;
      }
      location := location[category := next];
      var q := deck[index];
      ShuffleKeepsWellFormed(q, picks);
      var shuffled := Shuffled(q.answers, picks);
      var newDeck := deck[index := Question(q.text, shuffled)];
      assert forall k :: 0 <= k < |newDeck| ==> WellFormed(newDeck[k]);
      UpdateKeepsValid(questions, old(location), category, newDeck, next);
      questions := questions[category := newDeck];
      var correct := CorrectNumber(shuffled);
      r := Some(choice == correct);
      assert choice == correct <==> 1 <= choice <= 4 && shuffled[choice - 1].correct;
    }
  }
}
