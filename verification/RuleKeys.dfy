/** The key under which a rule and a cohort are remembered as "did not match": a 32-bit hash of both numbers. */
module RuleKeys {
  const WIDTH: int := 0x1_0000_0000
  const MAX: int := 0xFFFF_FFFF
  const SEED: int := 705577479
  /** (h << 16) + (h << 6) - h */
  const FACTOR: int := 65599

  predicate Word(x: int) {
    0 <= x < WIDTH
  }

  /** The left shift of a 32-bit word. */
  function Shift(h: int, bits: nat): int {
    h * Power2(bits) % WIDTH
  }

  function Power2(bits: nat): nat {
    if bits == 0 then 1 else 2 * Power2(bits - 1)
  }

  /** hash_value(c, h): two numbers mixed, with three results reserved. */
  function HashValue(c: int, h: int): (r: int)
    requires Word(c) && Word(h)
  {
    var h := if h == 0 then SEED else h;
    var r := (((c + Shift(h, 6)) % WIDTH + Shift(h, 16)) % WIDTH - h) % WIDTH;
    if r == 0 || r == MAX || r == MAX - 1 then SEED else r
  }

  lemma Remainder(b: int, q: int, m: int)
    requires b == q * WIDTH + m && 0 <= m < WIDTH
    ensures b % WIDTH == m
  {
    var d := b / WIDTH - q;
    assert d * WIDTH == m - b % WIDTH;
    assert -1 < d < 1;
  }

  lemma Mixed(c: int, x: int, y: int, h: int)
    ensures (((c + x % WIDTH) % WIDTH + y % WIDTH) % WIDTH - h) % WIDTH == (c + x + y - h) % WIDTH
  {
  }

  /**
   The shifts and the subtraction amount to one multiplication, and no result is 0 or one of the table's reserved
   values.
   */
  lemma HashValueIs(c: int, h: int)
    requires Word(c) && Word(h)
    ensures var m := (c + 65599 * (if h == 0 then SEED else h)) % 0x1_0000_0000;
            HashValue(c, h) == if m == 0 || m == MAX || m == MAX - 1 then SEED else m
    ensures Word(HashValue(c, h)) && HashValue(c, h) != 0
    ensures HashValue(c, h) != MAX && HashValue(c, h) != MAX - 1
  {
    var h := if h == 0 then SEED else h;
    Mixed(c, 64 * h, 65536 * h, h);
  }

  /** The key of a rule and a cohort, whose numbers are 32-bit words. */
  function Key(rule: nat, cohort: nat): int {
    HashValue(rule % WIDTH, cohort % WIDTH)
  }

  /** What the hash makes of the numbers before it avoids three results. */
  function Residue(rule: nat, cohort: nat): int {
    (rule + FACTOR * cohort) % WIDTH
  }

  predicate Reserved(m: int) {
    m == 0 || m == MAX || m == MAX - 1
  }

  /** The key is the seed, because the hash avoids what it would be, or by chance. */
  predicate Seeded(rule: nat, cohort: nat) {
    Reserved(Residue(rule, cohort)) || Residue(rule, cohort) == SEED
  }

  /** Rule numbers stay below RULES, and cohort numbers in use at a time within SPREAD of each other. */
  const RULES: int := 65599
  const SPREAD: int := 65472

  lemma KeyIs(rule: nat, cohort: nat)
    requires rule < RULES && 1 <= cohort < WIDTH
    ensures Key(rule, cohort) == if Reserved(Residue(rule, cohort)) then SEED else Residue(rule, cohort)
  {
    Remainder(rule, 0, rule);
    Remainder(cohort, 0, cohort);
    HashValueIs(rule, cohort);
  }

  lemma ResiduesIdentify(rule: nat, cohort: nat, rule': nat, cohort': nat)
    requires rule < RULES && rule' < RULES && -SPREAD <= cohort - cohort' <= SPREAD
    ensures Residue(rule, cohort) == Residue(rule', cohort') <==> rule == rule' && cohort == cohort'
  {
    var a, b := rule + FACTOR * cohort, rule' + FACTOR * cohort';
    if a % WIDTH == b % WIDTH {
      var q := a / WIDTH - b / WIDTH;
      assert a - b == q * WIDTH;
      assert a - b == rule - rule' + FACTOR * (cohort - cohort');
      assert -WIDTH < a - b < WIDTH;
      assert q == 0;
      assert FACTOR * (cohort - cohort') == rule' - rule;
    }
  }

  /**
   Keys tell rules and cohorts apart, wherever in the text the cohorts are, but for the pairs whose key is
   the seed.
   */
  lemma KeysIdentify(rule: nat, cohort: nat, rule': nat, cohort': nat)
    requires rule < RULES && rule' < RULES && 1 <= cohort < WIDTH && 1 <= cohort' < WIDTH
    requires -SPREAD <= cohort - cohort' <= SPREAD
    ensures Key(rule, cohort) == Key(rule', cohort') <==>
              (rule == rule' && cohort == cohort') || (Seeded(rule, cohort) && Seeded(rule', cohort'))
  {
    KeyIs(rule, cohort);
    KeyIs(rule', cohort');
    ResiduesIdentify(rule, cohort, rule', cohort');
  }

  /** Among the first 65472 cohorts of a text nothing wraps around and nothing is avoided. */
  lemma FirstCohorts(rule: nat, cohort: nat)
    requires rule < RULES && 1 <= cohort <= SPREAD
    ensures !Reserved(Residue(rule, cohort)) && Key(rule, cohort) == rule + 65599 * cohort
  {
    var m := rule + FACTOR * cohort;
    assert FACTOR * cohort <= FACTOR * SPREAD;
    Remainder(m, 0, m);
    KeyIs(rule, cohort);
  }

  /** No bound can be raised: one more rule, or cohorts one further apart, and two pairs share a residue. */
  lemma BoundsAreTight()
    ensures Key(RULES, 1) == Key(0, 2) != SEED
    ensures Key(3969, 1 + SPREAD + 1) == Key(0, 1) != SEED
  {
    FirstCohorts(0, 1);
    FirstCohorts(0, 2);
    HashValueIs(RULES, 1);
    Remainder(RULES + FACTOR, 0, RULES + FACTOR);
    KeyIs(3969, SPREAD + 2);
    Remainder(3969 + FACTOR * (SPREAD + 2), 1, FACTOR);
  }

  /** A pair of numbers whose key would be reserved shares the seed with the next rule and the same cohort. */
  lemma ReservedKeysCollide()
    ensures Key(3967, SPREAD + 1) == Key(3968, SPREAD + 1) == SEED
  {
    KeyIs(3967, SPREAD + 1);
    KeyIs(3968, SPREAD + 1);
    Remainder(3967 + FACTOR * (SPREAD + 1), 0, MAX - 1);
    Remainder(3968 + FACTOR * (SPREAD + 1), 0, MAX);
  }
}
