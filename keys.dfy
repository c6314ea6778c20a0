/**
 * The keys under which the permutation runs are stored,
 * `random_{num_nodes}_run_{run_index}`, and the parser the significance step
 * reads them back with.
 */
module ResultKeys {
  import opened Wrappers
  import opened Text

  /** `f'random_{n}_run_{i}'`. */
  function RandomKey(n: nat, i: nat): string
  {
    "random_" + NatToString(n) + "_run_" + NatToString(i)
  }

  datatype KeyError =
    | MissingField   // `parts[k]` past the end raises `IndexError`
    | NotAnInteger(field: string)   // `int(...)` raises `ValueError`

  /**
   * `parse_random_key`: splits on `'_'` and reads fields 1 and 3 as integers,
   * field 1 first.
   */
  function ParseRandomKey(key: string): (r: Result<(int, int), KeyError>)
    ensures r.Success? ==> |Split(key, '_')| >= 4
    ensures r.Success? <==>
      var parts := Split(key, '_');
      |parts| >= 4 && ParseInt(parts[1]).Some? && ParseInt(parts[3]).Some?
  {
    var parts := Split(key, '_');
    if |parts| < 2 then Failure(MissingField)
    else match ParseInt(parts[1])
      case None => Failure(NotAnInteger(parts[1]))
      case Some(length) =>
        if |parts| < 4 then Failure(MissingField)
        else match ParseInt(parts[3])
          case None => Failure(NotAnInteger(parts[3]))
          case Some(run) => Success((length, run))
  }

  lemma NoUnderscoreInNumber(n: nat)
    ensures '_' !in NatToString(n)
  {
  }

  /** A stored key splits into the marker, the node count, `run` and the run index. */
  lemma {:induction false} SplitRandomKey(n: nat, i: nat)
    ensures Split(RandomKey(n, i), '_') == ["random", NatToString(n), "run", NatToString(i)]
  {
    var a, b := NatToString(n), NatToString(i);
    NoUnderscoreInNumber(n);
    NoUnderscoreInNumber(i);
    assert RandomKey(n, i) == "random" + ['_'] + (a + ['_'] + ("run" + ['_'] + b));
    SplitConcat("random", '_', a + ['_'] + ("run" + ['_'] + b));
    SplitConcat(a, '_', "run" + ['_'] + b);
    SplitConcat("run", '_', b);
    SplitNoSep(b, '_');
  }

  /** Parsing a stored key gives back the node count and the run index. */
  lemma ParseRandomKeyRoundTrip(n: nat, i: nat)
    ensures ParseRandomKey(RandomKey(n, i)) == Success((n, i))
  {
    SplitRandomKey(n, i);
    ParseIntNatToString(n);
    ParseIntNatToString(i);
  }

  /** Distinct runs are stored under distinct keys. */
  lemma RandomKeyInjective(n: nat, i: nat, m: nat, j: nat)
    ensures RandomKey(n, i) == RandomKey(m, j) <==> n == m && i == j
  {
    ParseRandomKeyRoundTrip(n, i);
    ParseRandomKeyRoundTrip(m, j);
  }
}
