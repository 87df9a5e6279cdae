/**
 * Byte formatting of driveCall.js: `formatBytes` divides by 1024 and moves up
 * the fixed unit list B, KB, MB, GB, TB, never past TB. The byte count is a
 * `real` (division by 1024 is exact there) and the chosen unit an index into
 * `Units`. The two-decimal rendering of the value is not modelled.
 */
module ByteFormat {

  const Units: seq<string> := ["B", "KB", "MB", "GB", "TB"]

  /** Index of the last (largest) unit, TB. */
  const MaxUnit: nat := |Units| - 1

  /** A scaled byte count: `value` expressed in unit `Units[unit]`. */
  datatype Scaled = Scaled(value: real, unit: nat)

  /** 1024 raised to the power `k`. */
  function Pow1024(k: nat): real
  {
    if k == 0 then 1.0 else Pow1024(k - 1) * 1024.0
  }

  lemma PowValues()
    ensures Pow1024(0) == 1.0
    ensures Pow1024(1) == 1024.0
    ensures Pow1024(2) == 1048576.0
    ensures Pow1024(3) == 1073741824.0
    ensures Pow1024(4) == 1099511627776.0
  {
    assert Pow1024(1) == 1024.0;
    assert Pow1024(2) == 1048576.0;
    assert Pow1024(3) == 1073741824.0;
  }

  /**
   * The state `formatBytes` stops in for input `bytes`: the unit is a valid
   * index, the scaled value gives `bytes` back, the value is below 1024 unless
   * the unit is TB, and every division performed started from at least 1024,
   * so a unit above B carries a value of at least 1.
   */
  predicate Normalized(bytes: real, s: Scaled)
  {
    && s.unit <= MaxUnit
    && s.value * Pow1024(s.unit) == bytes
    && (s.value < 1024.0 || s.unit == MaxUnit)
    && (s.unit > 0 ==> s.value >= 1.0)
  }

  /**
   * The loop of `formatBytes`, written as recursion from unit `index` on:
   * while the value is at least 1024 and a larger unit remains, divide by
   * 1024 and move up one unit.
   */
  function Reduce(value: real, index: nat): (r: Scaled)
    requires index <= MaxUnit
    ensures index <= r.unit <= MaxUnit
    ensures r.value * Pow1024(r.unit - index) == value
    ensures r.value < 1024.0 || r.unit == MaxUnit
    ensures r.unit > index ==> r.value >= 1.0
    ensures r.unit == index ==> r.value == value
    ensures value < 1024.0 ==> r == Scaled(value, index)
    decreases MaxUnit - index
  {
    if value >= 1024.0 && index < MaxUnit then
      var r := Reduce(value / 1024.0, index + 1);
      assert r.value * Pow1024(r.unit - index) == (r.value * Pow1024(r.unit - (index + 1))) * 1024.0;
      r
    else
      Scaled(value, index)
  }

  /** One loop step keeps `value * 1024^index` unchanged. */
  lemma DivideStep(v: real, k: nat)
    ensures (v / 1024.0) * Pow1024(k + 1) == v * Pow1024(k)
  {
    var p := Pow1024(k);
    assert Pow1024(k + 1) == p * 1024.0;
    assert (v / 1024.0) * (p * 1024.0) == v * p;
  }

  /** `formatBytes(bytes)` as a value: the loop started at unit B. */
  function Format(bytes: real): Scaled
  {
    Reduce(bytes, 0)
  }

  /** The unit symbol of a scaled value; in bounds for every normalized result. */
  function Symbol(s: Scaled): (u: string)
    requires s.unit <= MaxUnit
    ensures u in Units
  {
    Units[s.unit]
  }

  /** Whatever the input, the formatted result is normalized for it. */
  lemma FormatNormalized(bytes: real)
    ensures Normalized(bytes, Format(bytes))
  {
    var r := Reduce(bytes, 0);
    assert r.unit - 0 == r.unit;
  }

  /** At most one scaled value is normalized for a given byte count. */
  lemma NormalizedUnique(bytes: real, s: Scaled, t: Scaled)
    requires Normalized(bytes, s) && Normalized(bytes, t)
    ensures s == t
  {
    PowValues();
    NormalizedUnit(bytes, s);
    NormalizedUnit(bytes, t);
  }

  /** The unit of a normalized value is fixed by the thresholds 1024^k. */
  lemma NormalizedUnit(bytes: real, s: Scaled)
    requires Normalized(bytes, s)
    ensures s.unit == ExpectedUnit(bytes)
    ensures s.value * Pow1024(s.unit) == bytes
  {
    PowValues();
  }

  /**
   * Reference definition of the unit `formatBytes` picks, from thresholds
   * alone: B below 1024, KB below 1024^2, MB below 1024^3, GB below 1024^4,
   * TB from there on.
   */
  function ExpectedUnit(bytes: real): nat
  {
    if bytes < Pow1024(1) then 0
    else if bytes < Pow1024(2) then 1
    else if bytes < Pow1024(3) then 2
    else if bytes < Pow1024(4) then 3
    else 4
  }

  /** The normalized form characterizes `formatBytes` completely, both ways. */
  lemma FormatIff(bytes: real, s: Scaled)
    ensures Normalized(bytes, s) <==> s == Format(bytes)
  {
    FormatNormalized(bytes);
    if Normalized(bytes, s) {
      NormalizedUnique(bytes, s, Format(bytes));
    }
  }

  /** The unit chosen by the loop is the one the thresholds name. */
  lemma FormatUnitByThresholds(bytes: real)
    ensures Format(bytes).unit == ExpectedUnit(bytes)
    ensures Format(bytes).value * Pow1024(ExpectedUnit(bytes)) == bytes
  {
    FormatNormalized(bytes);
    NormalizedUnit(bytes, Format(bytes));
  }

  /**
   * `formatBytes` with its loop: returns the scaled value, the unit index
   * and the unit symbol.
   */
  method FormatBytes(bytes: real) returns (value: real, index: nat, symbol: string)
    ensures index <= MaxUnit && symbol == Units[index]
    ensures Normalized(bytes, Scaled(value, index))
    ensures bytes < 1024.0 ==> value == bytes && index == 0
    ensures Scaled(value, index) == Format(bytes)
  {
    value, index := bytes, 0;
    while value >= 1024.0 && index < |Units| - 1
      invariant index <= MaxUnit
      invariant value * Pow1024(index) == bytes
      invariant index > 0 ==> value >= 1.0
      invariant index == 0 ==> value == bytes
      invariant bytes < 1024.0 ==> index == 0
      decreases MaxUnit - index
    {
      DivideStep(value, index);
      value := value / 1024.0;
      index := index + 1;
    }
    symbol := Symbol(Scaled(value, index));
    assert Normalized(bytes, Scaled(value, index));
    FormatIff(bytes, Scaled(value, index));
  }

  /** Concrete cases: 0, 1024, 1536, 1024^4, and 1024^5, which stays in TB. */
  lemma FormatExamples()
    ensures Format(0.0) == Scaled(0.0, 0)
    ensures Format(1024.0) == Scaled(1.0, 1)
    ensures Format(1536.0) == Scaled(1.5, 1)
    ensures Format(1099511627776.0) == Scaled(1.0, 4)
    ensures Format(1125899906842624.0) == Scaled(1024.0, 4)
  {
    PowValues();
    FormatIff(0.0, Scaled(0.0, 0));
    FormatIff(1024.0, Scaled(1.0, 1));
    FormatIff(1536.0, Scaled(1.5, 1));
    FormatIff(1099511627776.0, Scaled(1.0, 4));
    FormatIff(1125899906842624.0, Scaled(1024.0, 4));
  }

  /** Storage quota as reported by the remote store, in bytes. */
  datatype Quota = Quota(limit: real, usage: real)

  /** The three lines of the storage report: total, used, available. */
  datatype Report = Report(total: Scaled, used: Scaled, available: Scaled)

  /** `getDriveStorage` without the fetch and the printing. */
  function StorageReport(q: Quota): (r: Report)
    ensures Normalized(q.limit, r.total)
    ensures Normalized(q.usage, r.used)
    ensures Normalized(q.limit - q.usage, r.available)
  {
    FormatNormalized(q.limit);
    FormatNormalized(q.usage);
    FormatNormalized(q.limit - q.usage);
    Report(Format(q.limit), Format(q.usage), Format(q.limit - q.usage))
  }
}
