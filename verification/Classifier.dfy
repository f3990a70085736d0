/**
  Packet classifiers (libhilti/classifier.c): rules with a priority, matched field by field on leading bits.
*/
module Classifier {
  import opened Wrappers

  // A byte's bits, the most significant first. Bytes are only masked and compared.
  type Byte = b: seq<bool> | |b| == 8 witness ZEROS

  const ZEROS := [false, false, false, false, false, false, false, false]

  // `len` bytes of data, of which `bits` bits count; no bits at all is a wildcard. In memory there is a byte of the
  // number of bits in front of the data.
  datatype Field = Field(data: seq<Byte>, bits: nat, front: Byte)

  function At(f: Field, k: int): Byte
    requires -1 <= k < |f.data|
  {
    if k < 0 then f.front else f.data[k]
  }

  datatype Rule = Rule(priority: int, fields: seq<Field>, value: int)

  datatype Error = ValueError | IndexError

  const NO_RULE := Rule(0, [], 0)

  // ----- Matching

  predicate BitOf(data: seq<Byte>, i: nat)
    requires i < 8 * |data|
  {
    data[i / 8][i % 8]
  }

  // b & mask, with the mask 0xff << (8 - bits): the low 8 - bits bits are cleared.
  function Masked(b: Byte, bits: nat): Byte
    requires bits <= 8
  {
    b[..bits] + ZEROS[bits..]
  }

  // A rule's field can be used: there is data for its bits.
  ghost predicate Proper(f: Field) {
    f.bits <= 8 * |f.data|
  }

  // What the documentation calls a match, for the leading n bits
  ghost predicate SameBits(f: Field, v: Field, n: nat)
    requires n <= 8 * |f.data| && n <= 8 * |v.data|
  {
    forall i | 0 <= i < n :: BitOf(f.data, i) == BitOf(v.data, i)
  }

  // A wildcard matches everything; otherwise, all but the last of the field's bits count. If the field has none, the
  // code compares what is in front of the data.
  ghost predicate FieldMatches(f: Field, v: Field)
    requires Proper(f)
  {
    || v.bits == 0
    || (|v.data| >= |f.data| &&
        if f.bits == 0 then Masked(v.front, 7) == Masked(f.front, 7) else SameBits(f, v, f.bits - 1))
  }

  lemma MaskedBits(x: Byte, y: Byte, n: nat)
    requires n <= 8
    ensures Masked(x, n) == Masked(y, n) <==> forall k | 0 <= k < n :: x[k] == y[k]
  {
    if Masked(x, n) == Masked(y, n) {
      forall k | 0 <= k < n
        ensures x[k] == y[k]
      {
        assert Masked(x, n)[k] == Masked(y, n)[k];
      }
    }
  }

  // Whole bytes and then a part of the next one
  lemma BytesAndBits(f: Field, v: Field, bytes: nat, n: nat)
    requires bytes < |f.data| && bytes < |v.data| && n <= 7
    ensures SameBits(f, v, 8 * bytes + n) <==>
      f.data[..bytes] == v.data[..bytes] && Masked(v.data[bytes], n) == Masked(f.data[bytes], n)
  {
    hide Masked;
    MaskedBits(f.data[bytes], v.data[bytes], n);
    if SameBits(f, v, 8 * bytes + n) {
      forall j | 0 <= j < bytes
        ensures f.data[j] == v.data[j]
      {
        SameWhole(f, v, j, 8 * bytes + n, 8);
        assert |f.data[j]| == |v.data[j]| == 8;
      }
      SameWhole(f, v, bytes, 8 * bytes + n, n);
    } else {
      var i :| 0 <= i < 8 * bytes + n && BitOf(f.data, i) != BitOf(v.data, i);
      if i / 8 < bytes {
        assert f.data[..bytes][i / 8] != v.data[..bytes][i / 8];
      } else {
        assert i / 8 == bytes && f.data[bytes][i % 8] != v.data[bytes][i % 8];
      }
    }
  }

  lemma SameWhole(f: Field, v: Field, j: nat, total: nat, n: nat)
    requires j < |f.data| && j < |v.data| && n <= 8 && 8 * j + n <= total
    requires total <= 8 * |f.data| && total <= 8 * |v.data| && SameBits(f, v, total)
    ensures forall k | 0 <= k < n :: f.data[j][k] == v.data[j][k]
  {
    forall k | 0 <= k < n
      ensures f.data[j][k] == v.data[j][k]
    {
      assert (8 * j + k) / 8 == j && (8 * j + k) % 8 == k;
      assert BitOf(f.data, 8 * j + k) == BitOf(v.data, 8 * j + k);
    }
  }

  // The last bit of a field does not count: the code matches more than all its bits, by exactly those values that
  // differ in that bit.
  lemma LastBitIgnored(f: Field, v: Field)
    requires Proper(f) && f.bits > 0 && v.bits > 0 && |v.data| >= |f.data|
    ensures SameBits(f, v, f.bits) <==> FieldMatches(f, v) && BitOf(f.data, f.bits - 1) == BitOf(v.data, f.bits - 1)
  {
  }

  ghost predicate ProperRule(r: Rule, fields: nat) {
    |r.fields| == fields && forall i | 0 <= i < fields :: Proper(r.fields[i])
  }

  ghost predicate RuleMatches(r: Rule, vals: seq<Field>)
    requires ProperRule(r, |vals|)
  {
    forall i | 0 <= i < |vals| :: FieldMatches(r.fields[i], vals[i])
  }

  // match_single_rule
  method MatchSingleRule(r: Rule, vals: seq<Field>) returns (m: bool)
    requires ProperRule(r, |vals|)
    ensures m <==> RuleMatches(r, vals)
  {
    var i := 0;
    while i < |vals|
      invariant 0 <= i <= |vals| && forall j | 0 <= j < i :: FieldMatches(r.fields[j], vals[j])
    {
      var field, val := r.fields[i], vals[i];
      i := i + 1;
      if val.bits == 0 {
        continue;
      }
      if |val.data| < |field.data| {
        return false;
      }
      var bytes := (field.bits + 8 - 1) / 8;
      var bits := field.bits - (bytes - 1) * 8 - 1;
      if bytes > 0 {
        BytesAndBits(field, val, bytes - 1, bits);
      }
      if bytes > 1 && field.data[..bytes - 1] != val.data[..bytes - 1] {
        return false;
      }
      if Masked(At(val, bytes - 1), bits) != Masked(At(field, bytes - 1), bits) {
        return false;
      }
    }
    return true;
  }

  // ----- Sorting

  // The conversion of a difference of priorities to int
  function ToInt32(d: int): int {
    var r := d % 0x1_0000_0000;
    if r >= 0x8000_0000 then r - 0x1_0000_0000 else r
  }

  // cmp_rules
  function CmpRules(r1: Rule, r2: Rule): int {
    ToInt32(r2.priority - r1.priority)
  }

  // The difference of two priorities keeps its sign when it is cut to 32 bits.
  ghost predicate OrderKept(r1: Rule, r2: Rule) {
    var d := r2.priority - r1.priority;
    || d == 0
    || (d > 0 && 0 < d % 0x1_0000_0000 < 0x8000_0000)
    || (d < 0 && d % 0x1_0000_0000 >= 0x8000_0000)
  }

  // The comparison has the right sign exactly then.
  lemma CmpRight(r1: Rule, r2: Rule)
    ensures OrderKept(r1, r2) <==>
      (CmpRules(r1, r2) < 0 <==> r1.priority > r2.priority) && (CmpRules(r1, r2) > 0 <==> r1.priority < r2.priority)
  {
  }

  ghost predicate AllKept(rules: seq<Rule>) {
    forall a, b | a in rules && b in rules :: OrderKept(a, b)
  }

  // What the C library promises of qsort(): a permutation, and a sorted one if the comparison is consistent.
  ghost predicate Consistent(rules: seq<Rule>) {
    && (forall a, b | a in rules && b in rules :: CmpRules(a, b) < 0 <==> CmpRules(b, a) > 0)
    && (forall a, b, c | a in rules && b in rules && c in rules && CmpRules(a, b) <= 0 && CmpRules(b, c) <= 0 ::
      CmpRules(a, c) <= 0)
  }

  ghost predicate Sorted(rules: seq<Rule>) {
    forall i, j | 0 <= i < j < |rules| :: CmpRules(rules[i], rules[j]) <= 0
  }

  ghost predicate QsortContract(rules: seq<Rule>, sorted: seq<Rule>) {
    multiset(sorted) == multiset(rules) && (Consistent(rules) ==> Sorted(sorted))
  }

  ghost predicate ByPriority(rules: seq<Rule>) {
    forall i, j | 0 <= i < j < |rules| :: rules[i].priority >= rules[j].priority
  }

  lemma KeptConsistent(rules: seq<Rule>)
    requires AllKept(rules)
    ensures Consistent(rules)
    ensures forall a, b | a in rules && b in rules :: CmpRules(a, b) <= 0 <==> a.priority >= b.priority
  {
    forall a, b | a in rules && b in rules
      ensures CmpRules(a, b) < 0 <==> a.priority > b.priority
      ensures CmpRules(a, b) > 0 <==> a.priority < b.priority
    {
      CmpRight(a, b);
    }
  }

  lemma KeptSorts(rules: seq<Rule>, sorted: seq<Rule>)
    requires AllKept(rules) && QsortContract(rules, sorted)
    ensures ByPriority(sorted)
  {
    KeptConsistent(rules);
    SameRules(rules, sorted);
    hide OrderKept, Consistent;
    forall i, j | 0 <= i < j < |sorted|
      ensures sorted[i].priority >= sorted[j].priority
    {
      assert sorted[i] in sorted && sorted[j] in sorted && CmpRules(sorted[i], sorted[j]) <= 0;
    }
  }

  lemma SameRules(rules: seq<Rule>, sorted: seq<Rule>)
    requires multiset(sorted) == multiset(rules)
    ensures |sorted| == |rules| && forall r :: r in sorted <==> r in rules
  {
    assert |sorted| == |multiset(sorted)| == |multiset(rules)|;
    forall r
      ensures r in sorted <==> r in rules
    {
      assert r in sorted <==> r in multiset(sorted);
    }
  }

  // ----- A comparison with a wrong sign can always spoil the order.

  ghost predicate FirstOf(x: Rule, s: seq<Rule>) {
    forall r | r in s :: CmpRules(x, r) <= 0
  }

  lemma SortedCons(x: Rule, s: seq<Rule>)
    requires Sorted(s) && FirstOf(x, s)
    ensures Sorted([x] + s)
  {
  }

  lemma SortedHead(s: seq<Rule>)
    requires Sorted(s) && s != []
    ensures FirstOf(s[0], s) && Sorted(s[1..]) && multiset(s) == multiset{s[0]} + multiset(s[1..])
  {
    assert s == [s[0]] + s[1..];
    assert CmpRules(s[0], s[0]) == 0;
  }

  lemma ComesFirst(x: Rule, s: seq<Rule>, all: seq<Rule>)
    requires Consistent(all) && x in all && (forall r | r in s :: r in all) && s != []
    requires CmpRules(x, s[0]) <= 0 && FirstOf(s[0], s)
    ensures FirstOf(x, s)
  {
    hide CmpRules;
  }

  lemma {:induction false} Inserted(x: Rule, s: seq<Rule>, all: seq<Rule>) returns (r: seq<Rule>)
    requires Sorted(s) && Consistent(all) && x in all && forall r | r in s :: r in all
    ensures multiset(r) == multiset{x} + multiset(s) && Sorted(r)
  {
    hide CmpRules, Consistent;
    if s == [] {
      return [x];
    }
    SortedHead(s);
    hide Sorted;
    if CmpRules(x, s[0]) <= 0 {
      ComesFirst(x, s, all);
      SortedCons(x, s);
      return [x] + s;
    }
    var t := Inserted(x, s[1..], all);
    AfterAll(x, s[0], all);
    forall r | r in t
      ensures CmpRules(s[0], r) <= 0
    {
      assert r in multiset(t);
    }
    SortedCons(s[0], t);
    r := [s[0]] + t;
  }

  lemma AfterAll(x: Rule, y: Rule, all: seq<Rule>)
    requires Consistent(all) && x in all && y in all && CmpRules(x, y) > 0
    ensures CmpRules(y, x) < 0
  {
  }

  // A consistent comparison has a sorted arrangement.
  lemma {:induction false} Arranged(rules: seq<Rule>, all: seq<Rule>) returns (sorted: seq<Rule>)
    requires Consistent(all) && forall r | r in rules :: r in all
    ensures multiset(sorted) == multiset(rules) && Sorted(sorted)
  {
    hide Consistent;
    if rules == [] {
      sorted := [];
    } else {
      var t := Arranged(rules[1..], all);
      SameRules(rules[1..], t);
      assert rules == [rules[0]] + rules[1..];
      sorted := Inserted(rules[0], t, all);
    }
  }

  // Two of the rules in exchanged places
  function Exchanged(s: seq<Rule>, i: nat, j: nat): seq<Rule>
    requires i < |s| && j < |s|
  {
    s[i := s[j]][j := s[i]]
  }

  lemma SameExchanged(s: seq<Rule>, i: nat, j: nat)
    requires i < j < |s|
    ensures multiset(Exchanged(s, i, j)) == multiset(s)
  {
    var x, y, z := s[..i], s[i + 1..j], s[j + 1..];
    assert s == x + [s[i]] + y + [s[j]] + z;
    assert Exchanged(s, i, j) == x + [s[j]] + y + [s[i]] + z;
  }

  // Rules that compare equal can change places.
  lemma StillSorted(s: seq<Rule>, i: nat, j: nat)
    requires Consistent(s) && Sorted(s) && i < j < |s| && CmpRules(s[j], s[i]) <= 0
    ensures Sorted(Exchanged(s, i, j))
  {
    hide CmpRules;
    var r := Exchanged(s, i, j);
    forall k, l | 0 <= k < l < |r|
      ensures CmpRules(r[k], r[l]) <= 0
    {
      assert s[i] in s && s[j] in s && r[k] in s && r[l] in s;
    }
  }

  lemma WrongWay(hi: Rule, lo: Rule, rules: seq<Rule>)
    requires Consistent(rules) && hi in rules && lo in rules && hi.priority > lo.priority
    requires !OrderKept(hi, lo) || !OrderKept(lo, hi)
    ensures CmpRules(lo, hi) <= 0
  {
    CmpRight(hi, lo);
    CmpRight(lo, hi);
  }

  lemma SameConsistent(rules: seq<Rule>, sorted: seq<Rule>)
    requires Consistent(rules) && multiset(sorted) == multiset(rules)
    ensures Consistent(sorted)
  {
    hide CmpRules;
    SameRules(rules, sorted);
  }

  // With a comparison that has a wrong sign, there is an outcome that qsort() may well have and that is out of order.
  lemma Spoiled(rules: seq<Rule>, hi: Rule, lo: Rule) returns (sorted: seq<Rule>)
    requires hi in rules && lo in rules && hi.priority > lo.priority && (!OrderKept(hi, lo) || !OrderKept(lo, hi))
    ensures QsortContract(rules, sorted) && !ByPriority(sorted)
  {
    sorted := rules;
    if Consistent(rules) {
      WrongWay(hi, lo, rules);
      sorted := Arranged(rules, rules);
      SameConsistent(rules, sorted);
    }
    SameRules(rules, sorted);
    hide *;
    sorted := MadeWorse(rules, sorted, hi, lo);
  }

  // If the higher one comes first, they can change places.
  lemma MadeWorse(rules: seq<Rule>, s: seq<Rule>, hi: Rule, lo: Rule) returns (sorted: seq<Rule>)
    requires hi in s && lo in s && hi.priority > lo.priority && multiset(s) == multiset(rules)
    requires Consistent(rules) ==> Consistent(s) && Sorted(s) && CmpRules(lo, hi) <= 0
    ensures QsortContract(rules, sorted) && !ByPriority(sorted)
  {
    hide CmpRules, Consistent, Sorted;
    var i :| 0 <= i < |s| && s[i] == hi;
    var j :| 0 <= j < |s| && s[j] == lo;
    sorted := s;
    if i < j {
      if Consistent(rules) {
        StillSorted(s, i, j);
      }
      SameExchanged(s, i, j);
      sorted := Exchanged(s, i, j);
      assert sorted[i] == lo && sorted[j] == hi;
    }
  }

  // Whatever qsort() does, compiling puts the rules in order: exactly if no difference of priorities loses its sign.
  lemma SortsIff(rules: seq<Rule>)
    ensures (forall sorted | QsortContract(rules, sorted) :: ByPriority(sorted)) <==> AllKept(rules)
  {
    if AllKept(rules) {
      forall sorted | QsortContract(rules, sorted)
        ensures ByPriority(sorted)
      {
        KeptSorts(rules, sorted);
      }
    } else {
      var a, b :| a in rules && b in rules && !OrderKept(a, b);
      var sorted;
      if a.priority > b.priority {
        sorted := Spoiled(rules, a, b);
      } else {
        sorted := Spoiled(rules, b, a);
      }
    }
  }

  // With priorities 2^32 apart, the rule with the lower one may well come first.
  lemma FarApartNotSorted(fields: seq<Field>)
    ensures var low, high := Rule(0, fields, 1), Rule(0x1_0000_0000, fields, 2);
      QsortContract([high, low], [low, high]) && !ByPriority([low, high])
  {
  }

  // ----- The classifier

  class Classifier {
    const numFields: nat
    var compiled: bool
    var maxPrio: int
    var numRules: int
    var rules: array<Rule>    // as many as maxRules

    ghost predicate Valid()
      reads this, rules
    {
      && 0 <= numRules <= rules.Length && (rules.Length == 0 || rules.Length >= 5) && maxPrio >= 0
      && forall i | 0 <= i < numRules :: ProperRule(rules[i], numFields) && rules[i].priority <= maxPrio
    }

    ghost function Rules(): seq<Rule>
      reads this, rules
      requires Valid()
    {
      rules[..numRules]
    }

    constructor (numFields: nat)
      ensures Valid() && Rules() == [] && !compiled && maxPrio == 0 && this.numFields == numFields && fresh(rules)
    {
      this.numFields, compiled, maxPrio, numRules := numFields, false, 0, 0;
      rules := new Rule[0];
    }

    // hlt_classifier_add
    method Add(fields: seq<Field>, priority: int, value: int) returns (r: Result<(), Error>)
      requires Valid() && ProperRule(Rule(priority, fields, value), numFields)
      modifies this, rules
      ensures Valid() && compiled == old(compiled) && (rules == old(rules) || fresh(rules))
      ensures compiled ==> r == Err(ValueError) && Rules() == old(Rules()) && maxPrio == old(maxPrio)
      ensures !compiled ==>
        && r == Ok(()) && Rules() == old(Rules()) + [Rule(priority, fields, value)]
        && maxPrio == if priority > old(maxPrio) then priority else old(maxPrio)
    {
      if compiled {
        return Err(ValueError);
      }
      if numRules >= rules.Length {
        Grow();
      }
      rules[numRules] := Rule(priority, fields, value);
      numRules := numRules + 1;
      if priority > maxPrio {
        maxPrio := priority;
      }
      return Ok(());
    }

    // One and a half times the room, starting with five
    method Grow()
      requires Valid() && numRules == rules.Length
      modifies this`rules
      ensures Valid() && Rules() == old(Rules()) && fresh(rules) && numRules < rules.Length
    {
      var maxRules := if rules.Length > 0 then rules.Length * 3 / 2 else 5;
      var old_rules := rules;
      rules := new Rule[maxRules](_ => NO_RULE);
      var i := 0;
      while i < old_rules.Length
        invariant 0 <= i <= old_rules.Length && fresh(rules) && rules.Length == maxRules && rules != old_rules
        invariant old_rules[..] == old(rules[..])
        invariant rules[..i] == old_rules[..i]
      {
        rules[i] := old_rules[i];
        i := i + 1;
      }
    }

    // hlt_classifier_add_no_prio: the new rule comes before all earlier ones.
    method AddNoPrio(fields: seq<Field>, value: int) returns (r: Result<(), Error>)
      requires Valid() && ProperRule(Rule(maxPrio + 1, fields, value), numFields)
      modifies this, rules
      ensures Valid() && compiled == old(compiled) && (rules == old(rules) || fresh(rules))
      ensures compiled ==> r == Err(ValueError) && Rules() == old(Rules())
      ensures !compiled ==>
        && r == Ok(()) && Rules() == old(Rules()) + [Rule(maxPrio, fields, value)] && maxPrio == old(maxPrio) + 1
        && forall i | 0 <= i < |old(Rules())| :: Rules()[i].priority < maxPrio
    {
      r := Add(fields, maxPrio + 1, value);
    }

    // hlt_classifier_compile, where `sorted` is what qsort() makes of the rules
    method Compile(sorted: seq<Rule>)
      requires Valid() && QsortContract(Rules(), sorted)
      modifies this`compiled, rules
      ensures Valid() && compiled && Rules() == sorted && maxPrio == old(maxPrio)
      ensures AllKept(old(Rules())) ==> ByPriority(Rules())
    {
      ghost var was := Rules();
      if AllKept(was) {
        KeptSorts(was, sorted);
      }
      SameRules(was, sorted);
      hide QsortContract, AllKept, ByPriority;
      compiled := true;
      Install(sorted);
      assert forall i | 0 <= i < numRules :: rules[i] == sorted[i] && sorted[i] in was;
      assert Rules() == sorted;
    }

    method Install(sorted: seq<Rule>)
      requires |sorted| <= rules.Length
      modifies rules
      ensures rules[..|sorted|] == sorted
    {
      var i := 0;
      while i < |sorted|
        invariant 0 <= i <= |sorted| && rules[..i] == sorted[..i]
      {
        rules[i] := sorted[i];
        i := i + 1;
      }
    }

    // hlt_classifier_matches
    method Matches(vals: seq<Field>) returns (r: Result<bool, Error>)
      requires Valid() && |vals| == numFields
      ensures !compiled ==> r == Err(ValueError)
      ensures compiled ==> r.Ok? && (r.value <==> exists i :: 0 <= i < |Rules()| && RuleMatches(Rules()[i], vals))
    {
      if !compiled {
        return Err(ValueError);
      }
      var i := 0;
      while i < numRules
        invariant 0 <= i <= numRules && forall j | 0 <= j < i :: !RuleMatches(rules[j], vals)
      {
        var m := MatchSingleRule(rules[i], vals);
        if m {
          assert RuleMatches(Rules()[i], vals);
          return Ok(true);
        }
        i := i + 1;
      }
      return Ok(false);
    }

    // hlt_classifier_get: the value of the first matching rule. If the rules are sorted, it has the highest priority
    // among all that match.
    method Get(vals: seq<Field>) returns (r: Result<int, Error>)
      requires Valid() && |vals| == numFields
      ensures !compiled ==> r == Err(ValueError)
      ensures compiled ==> (r.Err? <==> forall i | 0 <= i < |Rules()| :: !RuleMatches(Rules()[i], vals))
      ensures compiled && r.Err? ==> r.error == IndexError
      ensures compiled && r.Ok? ==>
        exists i :: 0 <= i < |Rules()| && Chosen(Rules(), i, vals) && Rules()[i].value == r.value
    {
      if !compiled {
        return Err(ValueError);
      }
      var i := 0;
      while i < numRules
        invariant 0 <= i <= numRules && forall j | 0 <= j < i :: !RuleMatches(rules[j], vals)
      {
        var m := MatchSingleRule(rules[i], vals);
        if m {
          assert Chosen(Rules(), i, vals);
          return Ok(rules[i].value);
        }
        i := i + 1;
      }
      return Err(IndexError);
    }
  }

  // Rule i is the first that matches, and, if the rules are sorted, the best.
  ghost predicate Chosen(rules: seq<Rule>, i: nat, vals: seq<Field>)
    requires i < |rules| && forall r | r in rules :: ProperRule(r, |vals|)
  {
    && RuleMatches(rules[i], vals)
    && (forall j | 0 <= j < i :: !RuleMatches(rules[j], vals))
    && (ByPriority(rules) ==> Best(rules, i, vals))
  }

  // Rule i matches, and no matching rule has a higher priority.
  ghost predicate Best(rules: seq<Rule>, i: nat, vals: seq<Field>)
    requires i < |rules| && forall r | r in rules :: ProperRule(r, |vals|)
  {
    && RuleMatches(rules[i], vals)
    && forall j | 0 <= j < |rules| && RuleMatches(rules[j], vals) :: rules[j].priority <= rules[i].priority
  }

  // A rule added without a priority, if it matches, is preferred to all earlier ones, and is the one that counts
  // unless there are later ones.
  lemma NoPrioWins(earlier: seq<Rule>, rule: Rule, later: seq<Rule>, sorted: seq<Rule>, i: nat, vals: seq<Field>)
    requires QsortContract(earlier + [rule] + later, sorted)
    requires forall r | r in earlier :: r.priority < rule.priority
    requires i < |sorted| && (forall r | r in sorted :: ProperRule(r, |vals|)) && Best(sorted, i, vals)
    requires ProperRule(rule, |vals|) && RuleMatches(rule, vals)
    ensures sorted[i] !in earlier && (later == [] ==> sorted[i] == rule)
  {
    var all := earlier + [rule] + later;
    assert rule == all[|earlier|] && rule in multiset(all);
    assert rule in multiset(sorted);
    var j :| 0 <= j < |sorted| && sorted[j] == rule;
    SameRules(all, sorted);
    assert sorted[i] in sorted;
  }
}
