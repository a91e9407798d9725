/** Reading a recorded trace: which lines are kept, and as what. */
module TraceFile {

  /** The lines that are kept, in order, each converted. */
  function Kept<T, U>(lines: seq<T>, keep: T -> bool, convert: T --> U): seq<U>
    requires forall line :: line in lines && keep(line) ==> convert.requires(line)
  {
    if lines == [] then []
    else
      var line := lines[|lines| - 1];
      var before := Kept(lines[..|lines| - 1], keep, convert);
      if keep(line) then before + [convert(line)] else before
  }

  /** What the first lines give is not changed by what follows. */
  lemma {:induction false} KeptPrefix<T, U>(lines: seq<T>, keep: T -> bool, convert: T --> U, i: nat)
    requires forall line :: line in lines && keep(line) ==> convert.requires(line)
    requires i <= |lines|
    ensures Kept(lines[..i], keep, convert) <= Kept(lines, keep, convert)
    decreases |lines|
  {
    if i == |lines| {
      assert lines[..i] == lines;
    } else {
      assert lines[..|lines| - 1][..i] == lines[..i];
      KeptPrefix(lines[..|lines| - 1], keep, convert, i);
    }
  }

  function KeptAmong<T>(lines: seq<T>, keep: T -> bool): nat
  {
    if lines == [] then 0
    else KeptAmong(lines[..|lines| - 1], keep) + if keep(lines[|lines| - 1]) then 1 else 0
  }

  /** A line that is kept stands, converted, right behind those kept before it; and nothing else is there. */
  lemma {:induction false} KeptByIndex<T, U>(lines: seq<T>, keep: T -> bool, convert: T --> U, k: nat)
    requires forall line :: line in lines && keep(line) ==> convert.requires(line)
    requires k < |lines|
    ensures var r := Kept(lines, keep, convert);
            && |r| == KeptAmong(lines, keep) && KeptAmong(lines[..k], keep) <= |r|
            && (keep(lines[k]) ==>
                  KeptAmong(lines[..k], keep) < |r| && r[KeptAmong(lines[..k], keep)] == convert(lines[k]))
    decreases |lines|
  {
    var n := |lines| - 1;
    var before := lines[..n];
    if k < n {
      assert before[..k] == lines[..k];
      KeptByIndex(before, keep, convert, k);
    } else if n > 0 {
      KeptByIndex(before, keep, convert, 0);
    }
  }
}
