/**
  The run-length form of code lengths (section 3.2.7 of RFC 1951): a plain length,
  16 to repeat the previous one 3 to 6 times, 17 and 18 for 3 to 10 and for 11 to
  138 zeros.
 */
module LengthRuns {

  datatype Run = Plain(length: nat) | Repeat(count: nat) | Zeros(count: nat) | ManyZeros(count: nat)

  function Copies(value: nat, count: nat): (s: seq<nat>)
    ensures |s| == count && forall i :: 0 <= i < count ==> s[i] == value
  {
    seq(count, i => value)
  }

  /** A run that can be written, after the lengths `acc`. */
  ghost predicate ValidRun(run: Run, acc: seq<nat>) {
    match run
    case Plain(length) => length <= 15
    case Repeat(count) => acc != [] && 3 <= count <= 6
    case Zeros(count) => 3 <= count <= 10
    case ManyZeros(count) => 11 <= count <= 138
  }

  /** The lengths after one more run. */
  function ApplyRun(run: Run, acc: seq<nat>): seq<nat>
    requires run.Repeat? ==> acc != []
  {
    match run
    case Plain(length) => acc + [length]
    case Repeat(count) => acc + Copies(acc[|acc| - 1], count)
    case Zeros(count) => acc + Copies(0, count)
    case ManyZeros(count) => acc + Copies(0, count)
  }

  ghost predicate ValidRuns(runs: seq<Run>, acc: seq<nat>) {
    runs == [] || (ValidRun(runs[0], acc) && ValidRuns(runs[1..], ApplyRun(runs[0], acc)))
  }

  ghost function ExpandRuns(runs: seq<Run>, acc: seq<nat>): (r: seq<nat>)
    requires ValidRuns(runs, acc)
  {
    if runs == [] then acc else ExpandRuns(runs[1..], ApplyRun(runs[0], acc))
  }

  lemma {:induction false} ExpandAppend(runs: seq<Run>, run: Run, acc: seq<nat>)
    requires ValidRuns(runs, acc) && ValidRun(run, ExpandRuns(runs, acc))
    ensures ValidRuns(runs + [run], acc)
    ensures ExpandRuns(runs + [run], acc) == ApplyRun(run, ExpandRuns(runs, acc))
    decreases |runs|
  {
    var longer := runs + [run];
    if runs == [] {
      assert longer[1..] == [];
    } else {
      assert longer[1..] == runs[1..] + [run];
      ExpandAppend(runs[1..], run, ApplyRun(runs[0], acc));
    }
  }

  /** The numbers a run is written as; a repeat code is followed by its extra bits. */
  function RunCodes(run: Run): seq<nat>
    requires Writable(run)
  {
    match run
    case Plain(length) => [length]
    case Repeat(count) => [16, count - 3]
    case Zeros(count) => [17, count - 3]
    case ManyZeros(count) => [18, count - 11]
  }

  /** A run whose counts and length are in range, whatever precedes it. */
  ghost predicate Writable(run: Run) {
    ValidRun(run, [0])
  }

  ghost predicate AllWritable(runs: seq<Run>) {
    forall i :: 0 <= i < |runs| ==> Writable(runs[i])
  }

  ghost function CodesOfRuns(runs: seq<Run>): seq<nat>
    requires AllWritable(runs)
  {
    if runs == [] then [] else CodesOfRuns(runs[..|runs| - 1]) + RunCodes(runs[|runs| - 1])
  }

  /** The runs stand for the first `i` of the lengths, in no more numbers than that. */
  ghost predicate RunsUpTo(lengths: seq<nat>, runs: seq<Run>, encoded: seq<nat>, i: nat) {
    && i <= |lengths| && AllWritable(runs) && ValidRuns(runs, [])
    && ExpandRuns(runs, []) == lengths[..i]
    && encoded == CodesOfRuns(runs) && |encoded| <= i
  }

  lemma AddRun(lengths: seq<nat>, runs: seq<Run>, encoded: seq<nat>, i: nat, run: Run, j: nat)
    requires RunsUpTo(lengths, runs, encoded, i) && i < j <= |lengths|
    requires ValidRun(run, lengths[..i]) && Writable(run)
    requires ApplyRun(run, lengths[..i]) == lengths[..j] && i + |RunCodes(run)| <= j
    ensures RunsUpTo(lengths, runs + [run], encoded + RunCodes(run), j)
  {
    ExpandAppend(runs, run, []);
    assert (runs + [run])[..|runs|] == runs;
  }

  /** The lengths from `i` up to `j` all are `value`. */
  ghost predicate Same(lengths: seq<nat>, i: nat, j: nat, value: nat) {
    j <= |lengths| && forall k :: i <= k < j ==> lengths[k] == value
  }

  /** Appending a run of equal lengths. */
  lemma AddCopies(lengths: seq<nat>, runs: seq<Run>, encoded: seq<nat>, i: nat, run: Run, value: nat)
    requires RunsUpTo(lengths, runs, encoded, i) && !run.Plain? && Writable(run)
    requires run.Repeat? ==> i > 0 && lengths[i - 1] == value
    requires !run.Repeat? ==> value == 0
    requires Same(lengths, i, i + run.count, value)
    ensures RunsUpTo(lengths, runs + [run], encoded + RunCodes(run), i + run.count)
  {
    assert lengths[..i] + Copies(value, run.count) == lengths[..i + run.count];
    AddRun(lengths, runs, encoded, i, run, i + run.count);
  }

  lemma AddPlain(lengths: seq<nat>, runs: seq<Run>, encoded: seq<nat>, i: nat)
    requires RunsUpTo(lengths, runs, encoded, i) && i < |lengths| && lengths[i] <= 15
    ensures RunsUpTo(lengths, runs + [Plain(lengths[i])], encoded + [lengths[i]], i + 1)
  {
    assert lengths[..i] + [lengths[i]] == lengths[..i + 1];
    AddRun(lengths, runs, encoded, i, Plain(lengths[i]), i + 1);
  }

  /** How often the length at `i` is repeated after it. */
  method CountRepetitions(lengths: seq<nat>, i: nat) returns (j: nat)
    requires i < |lengths|
    ensures Same(lengths, i, i + j + 1, lengths[i])
  {
    j := 0;
    while i + j + 1 < |lengths| && lengths[i + j + 1] == lengths[i]
      invariant Same(lengths, i, i + j + 1, lengths[i])
      decreases |lengths| - j
    {
      j := j + 1;
    }
  }

  /** A nonzero length and its repetitions, in groups of six. */
  method EncodeRepeats(lengths: seq<nat>, encoded0: seq<nat>, i: nat, j0: nat, ghost runs0: seq<Run>)
    returns (encoded: seq<nat>, j: nat, ghost runs: seq<Run>)
    requires RunsUpTo(lengths, runs0, encoded0, i) && i < |lengths| && lengths[i] <= 15
    requires j0 >= 3 && Same(lengths, i, i + j0 + 1, lengths[i])
    ensures RunsUpTo(lengths, runs, encoded, i + j + 1)
  {
    hide RunsUpTo;
    j := j0;
    var num, rest := j / 6, j % 6;
    runs := runs0 + [Plain(lengths[i])];
    encoded := encoded0 + [lengths[i]];
    AddPlain(lengths, runs0, encoded0, i);
    for k := 0 to num
      invariant RunsUpTo(lengths, runs, encoded, i + 1 + 6 * k)
    {
      AddCopies(lengths, runs, encoded, i + 1 + 6 * k, Repeat(6), lengths[i]);
      runs := runs + [Repeat(6)];
      encoded := encoded + [16, 6 - 3];
    }
    if rest >= 3 {
      AddCopies(lengths, runs, encoded, i + 1 + 6 * num, Repeat(rest), lengths[i]);
      runs := runs + [Repeat(rest)];
      encoded := encoded + [16, rest - 3];
    } else {
      j := j - rest;
    }
  }

  /** Run-length coding of code lengths, which never needs more numbers than there are lengths. */
  method EncodeRuns(lengths: seq<nat>) returns (encoded: seq<nat>, ghost runs: seq<Run>)
    requires forall i :: 0 <= i < |lengths| ==> lengths[i] <= 15
    ensures AllWritable(runs) && ValidRuns(runs, []) && ExpandRuns(runs, []) == lengths
    ensures encoded == CodesOfRuns(runs) && |encoded| <= |lengths|
  {
    hide RunsUpTo, AllWritable, ValidRuns, CodesOfRuns, ExpandRuns, Writable;
    encoded, runs := [], [];
    NoRuns(lengths);
    var i := 0;
    while i < |lengths|
      invariant RunsUpTo(lengths, runs, encoded, i)
    {
      var j := CountRepetitions(lengths, i);
      if lengths[i] == 0 && j >= 2 {
        j := j + 1;  // include the first zero
        if j <= 10 {
          AddCopies(lengths, runs, encoded, i, Zeros(j), 0);
          encoded, runs := encoded + [17, j - 3], runs + [Zeros(j)];
        } else {
          if j > 138 {
            j := 138;
          }
          AddCopies(lengths, runs, encoded, i, ManyZeros(j), 0);
          encoded, runs := encoded + [18, j - 11], runs + [ManyZeros(j)];
        }
        i := i + (j - 1);
      } else if j >= 3 {
        encoded, j, runs := EncodeRepeats(lengths, encoded, i, j, runs);
        i := i + j;
      } else {
        AddPlain(lengths, runs, encoded, i);
        encoded, runs := encoded + [lengths[i]], runs + [Plain(lengths[i])];
      }
      i := i + 1;
    }
    RunsComplete(lengths, runs, encoded, i);
  }

  lemma NoRuns(lengths: seq<nat>)
    ensures RunsUpTo(lengths, [], [], 0)
  {
  }

  lemma RunsComplete(lengths: seq<nat>, runs: seq<Run>, encoded: seq<nat>, i: nat)
    requires RunsUpTo(lengths, runs, encoded, i) && i >= |lengths|
    ensures AllWritable(runs) && ValidRuns(runs, []) && ExpandRuns(runs, []) == lengths
    ensures encoded == CodesOfRuns(runs) && |encoded| <= |lengths|
  {
    assert lengths[..|lengths|] == lengths;
  }
}
