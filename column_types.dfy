/** Column typing. Two votes decide a column's type: the per-column analysis
    counts the classes in a dictionary and keeps the first class of strictly
    greatest count; the file overview tallies numbers, strings, booleans and
    others and compares them in a fixed order. */
module ColumnTypes {
  import opened Cells
  import opened Counting

  /** `d` is the outcome of the analysis vote over `kinds`: never 'empty'; a
      class of greatest count among the non-empty classes, the earliest seen of
      those on a tie; 'string' when nothing is non-empty. */
  ghost predicate IsDominant(kinds: seq<Kind>, d: Kind) {
    && d != EmptyKind
    && (forall k :: k != EmptyKind ==> Count(kinds, k) <= Count(kinds, d))
    && (forall k :: k != EmptyKind && k in kinds && Count(kinds, k) == Count(kinds, d) ==>
          d in kinds && FirstIndex(kinds, d) <= FirstIndex(kinds, k))
    && (d !in kinds ==> d == StringKind)
  }

  /** The vote has exactly one outcome. */
  lemma DominantUnique(kinds: seq<Kind>, d1: Kind, d2: Kind)
    requires IsDominant(kinds, d1) && IsDominant(kinds, d2)
    ensures d1 == d2
  {
    if d1 in kinds {
      assert Count(kinds, d1) == Count(kinds, d2);
      var i1, i2 := FirstIndex(kinds, d1), FirstIndex(kinds, d2);
      assert i1 == i2;
    }
  }

  /** The analysis vote: classify every value, count the classes in an
      insertion-ordered dictionary, then scan the dictionary keeping a class
      whose count strictly beats the best so far, skipping 'empty'. */
  method DominantType(column: seq<Cell>) returns (d: Kind)
    ensures IsDominant(KindsOf(column), d)
  {
    var kinds := KindsOf(column);
    var keys, counts := CountByValue(kinds);
    DistinctFirstSeen(kinds);
    d := StringKind;
    var maxCount := 0;
    var i := 0;
    while i < |keys|
      invariant 0 <= i <= |keys|
      invariant VoteState(kinds, keys, i, d, maxCount)
    {
      var k := keys[i];
      assert k in kinds;
      var n := counts[k];
      if n > maxCount && k != EmptyKind {
        VoteReplace(kinds, keys, i, d, maxCount);
        maxCount := n;
        d := k;
      } else {
        VoteKeep(kinds, keys, i, d, maxCount);
      }
      i := i + 1;
    }
    VoteComplete(kinds, keys, d, maxCount);
  }

  /** What the scan of the first `i` keys has established: `d` is the kept
      class and `maxCount` its count, which no class among those keys beats,
      and which those it ties reach no earlier than `d`. */
  ghost predicate VoteState(kinds: seq<Kind>, keys: seq<Kind>, i: nat, d: Kind, maxCount: nat)
    requires i <= |keys|
  {
    && d != EmptyKind
    && (maxCount == 0 ==> d == StringKind)
    && (maxCount > 0 ==> d in keys[..i] && d in kinds && maxCount == Count(kinds, d))
    && (forall j :: 0 <= j < i && keys[j] != EmptyKind ==> Count(kinds, keys[j]) <= maxCount)
    && (forall j :: 0 <= j < i && keys[j] != EmptyKind && Count(kinds, keys[j]) == maxCount ==>
          maxCount > 0 && FirstIndex(kinds, d) <= FirstIndex(kinds, keys[j]))
  }

  /** A key whose count strictly beats the kept one replaces it. */
  lemma VoteReplace(kinds: seq<Kind>, keys: seq<Kind>, i: nat, d: Kind, maxCount: nat)
    requires i < |keys| && keys[i] in kinds && VoteState(kinds, keys, i, d, maxCount)
    requires keys[i] != EmptyKind && Count(kinds, keys[i]) > maxCount
    ensures VoteState(kinds, keys, i + 1, keys[i], Count(kinds, keys[i]))
  {
    assert keys[i] in keys[..i + 1];
  }

  /** Any other key leaves the kept class as it is. */
  lemma VoteKeep(kinds: seq<Kind>, keys: seq<Kind>, i: nat, d: Kind, maxCount: nat)
    requires FirstSeenOrder(kinds, keys)
    requires i < |keys| && VoteState(kinds, keys, i, d, maxCount)
    requires keys[i] == EmptyKind || Count(kinds, keys[i]) <= maxCount
    ensures VoteState(kinds, keys, i + 1, d, maxCount)
  {
    var k := keys[i];
    if maxCount > 0 {
      assert d in keys[..i + 1] by {
        assert keys[..i] <= keys[..i + 1];
      }
    }
    if k != EmptyKind && Count(kinds, k) == maxCount {
      EarlierKey(kinds, keys, i, d);
    }
  }

  /** A key listed before position `i` was seen earlier in the column. */
  lemma EarlierKey(kinds: seq<Kind>, keys: seq<Kind>, i: nat, d: Kind)
    requires FirstSeenOrder(kinds, keys)
    requires i < |keys| && d in keys[..i]
    ensures d in kinds && keys[i] in kinds && FirstIndex(kinds, d) < FirstIndex(kinds, keys[i])
  {
    var j :| 0 <= j < i && keys[j] == d;
  }

  /** After the scan of every key, the kept class beats or ties every class
      of the column and comes first among those it ties. */
  lemma VoteComplete(kinds: seq<Kind>, keys: seq<Kind>, d: Kind, maxCount: nat)
    requires forall k :: k in keys <==> k in kinds
    requires VoteState(kinds, keys, |keys|, d, maxCount)
    ensures IsDominant(kinds, d)
  {
    forall k | k != EmptyKind && k in kinds
      ensures Count(kinds, k) <= maxCount
      ensures Count(kinds, k) == maxCount ==> FirstIndex(kinds, d) <= FirstIndex(kinds, k)
    {
      var j :| 0 <= j < |keys| && keys[j] == k;
    }
  }

  /** Per-column tally of the file overview: all values, the non-empty ones,
      and among those the numbers, strings, booleans and the rest. */
  datatype TypeTally = TypeTally(total: nat, nonEmpty: nat, number: nat, text: nat, boolean: nat, other: nat)

  function TallyOf(column: seq<Cell>): TypeTally {
    var kinds := KindsOf(column);
    TypeTally(|column|, |column| - Count(kinds, EmptyKind), Count(kinds, NumberKind),
              Count(kinds, StringKind), Count(kinds, BooleanKind), Count(kinds, DateKind))
  }

  /** Classifying two stretches of values classifies each in turn. */
  lemma KindsOfConcat(a: seq<Cell>, b: seq<Cell>)
    ensures KindsOf(a + b) == KindsOf(a) + KindsOf(b)
  {
  }

  /** The overview's tally counts every non-empty value exactly once. */
  lemma {:induction false} TallyPartition(column: seq<Cell>)
    ensures var t := TallyOf(column);
            t.number + t.text + t.boolean + t.other == t.nonEmpty <= t.total
  {
    if column != [] {
      var init, c := column[..|column| - 1], column[|column| - 1];
      assert column == init + [c];
      TallyPartition(init);
      TallyStep(init, c);
    }
  }

  /** How one more value moves each counter of the tally. */
  lemma TallyStep(column: seq<Cell>, c: Cell)
    ensures var t, t' := TallyOf(column), TallyOf(column + [c]);
            && t'.total == t.total + 1
            && t'.nonEmpty == t.nonEmpty + (if IsEmptyCell(c) then 0 else 1)
            && t'.number == t.number + (if c.Num? then 1 else 0)
            && t'.text == t.text + (if c.Str? && c.s != "" then 1 else 0)
            && t'.boolean == t.boolean + (if c.Bool? then 1 else 0)
            && t'.other == t.other + (if c.Date? then 1 else 0)
  {
    KindsOfConcat(column, [c]);
    forall k: Kind
      ensures Count(KindsOf(column + [c]), k) == Count(KindsOf(column), k) + (if Classify(c) == k then 1 else 0)
    {
      CountAppend(KindsOf(column), Classify(c), k);
    }
  }

  /** The overview's per-column loop over the rows. */
  method ColumnTally(rows: seq<Row>, header: string) returns (t: TypeTally)
    ensures t == TallyOf(Column(rows, header))
  {
    t := TypeTally(|rows|, 0, 0, 0, 0, 0);
    ghost var seen: seq<Cell> := [];
    var i := 0;
    while i < |rows|
      invariant 0 <= i <= |rows|
      invariant seen == Column(rows[..i], header)
      invariant t.total == |rows|
      invariant var s := TallyOf(seen);
                t.nonEmpty == s.nonEmpty && t.number == s.number && t.text == s.text
                && t.boolean == s.boolean && t.other == s.other
    {
      var value := Get(rows[i], header);
      TallyStep(seen, value);
      if !IsEmptyCell(value) {
        t := t.(nonEmpty := t.nonEmpty + 1);
        if value.Num? {
          t := t.(number := t.number + 1);
        } else if value.Str? {
          t := t.(text := t.text + 1);
        } else if value.Bool? {
          t := t.(boolean := t.boolean + 1);
        } else {
          t := t.(other := t.other + 1);
        }
      }
      seen := seen + [value];
      ColumnStep(rows, header, i);
      i := i + 1;
    }
    assert rows[..i] == rows;
  }

  /** The overview's type labels: 'text', 'numeric', 'boolean'. */
  datatype OverviewType = TextType | NumericType | BooleanType

  /** The overview's fixed-order vote: text is the default, numbers replace it
      only with a strictly greater count, booleans replace the winner only with
      a strictly greater count. */
  function OverviewVote(t: TypeTally): (r: OverviewType)
    ensures r == BooleanType <==> t.boolean > t.text && t.boolean > t.number
    ensures r == NumericType <==> t.number > t.text && t.number >= t.boolean
    ensures r == TextType <==> t.text >= t.number && t.text >= t.boolean
  {
    var leader := if t.number > t.text then NumericType else TextType;
    var best := if t.number > t.text then t.number else t.text;
    if t.boolean > best then BooleanType else leader
  }

  /** The overview label that names an analysis class. */
  function OverviewLabel(k: Kind): OverviewType {
    match k
    case NumberKind => NumericType
    case BooleanKind => BooleanType
    case _ => TextType
  }

  /** A strict winner among strings, numbers and booleans, or none of them present. */
  predicate NoTie(t: TypeTally) {
    || (t.text > t.number && t.text > t.boolean)
    || (t.number > t.text && t.number > t.boolean)
    || (t.boolean > t.text && t.boolean > t.number)
    || (t.text == 0 && t.number == 0 && t.boolean == 0)
  }

  /** Without dates and without a tie for first place, both votes name the
      same type. */
  lemma VotesAgree(column: seq<Cell>, d: Kind)
    requires IsDominant(KindsOf(column), d)
    requires DateKind !in KindsOf(column)
    requires NoTie(TallyOf(column))
    ensures OverviewVote(TallyOf(column)) == OverviewLabel(d)
  {
    var kinds := KindsOf(column);
    assert Count(kinds, DateKind) == 0;
    assert Count(kinds, d) >= Count(kinds, StringKind);
    assert Count(kinds, d) >= Count(kinds, NumberKind);
    assert Count(kinds, d) >= Count(kinds, BooleanKind);
  }

  /** On a tie the votes part: a number followed by a string is a number
      column for the analysis and a text column for the overview. */
  lemma VotesDifferOnTie()
    ensures IsDominant(KindsOf([Num(1.0), Str("a")]), NumberKind)
    ensures OverviewVote(TallyOf([Num(1.0), Str("a")])) == TextType
  {
    TieAnalysis();
    TieOverview();
  }

  lemma TieAnalysis()
    ensures IsDominant(KindsOf([Num(1.0), Str("a")]), NumberKind)
  {
    TieCounts();
  }

  lemma TieOverview()
    ensures OverviewVote(TallyOf([Num(1.0), Str("a")])) == TextType
  {
    TieCounts();
  }

  lemma TieCounts()
    ensures forall k: Kind :: Count(KindsOf([Num(1.0), Str("a")]), k) == (if k == NumberKind || k == StringKind then 1 else 0)
    ensures FirstIndex(KindsOf([Num(1.0), Str("a")]), NumberKind) == 0
  {
    var kinds := KindsOf([Num(1.0), Str("a")]);
    assert kinds == [NumberKind, StringKind];
    forall k: Kind ensures Count(kinds, k) == (if k == NumberKind || k == StringKind then 1 else 0) {
      CountPair(NumberKind, StringKind, k);
    }
  }

  lemma CountPair(a: Kind, b: Kind, k: Kind)
    ensures Count([a, b], k) == (if a == k then 1 else 0) + (if b == k then 1 else 0)
  {
    assert [a, b][..1] == [a];
    assert [a][..0] == [];
  }
}
