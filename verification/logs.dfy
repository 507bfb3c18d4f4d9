/** The two diagnostic streams `logs.stdout` and `logs.stderr`
    (fix-file.js:7), which every stage appends to and nothing truncates. */
module DiagnosticLog {

  /** The section separator appended after each command's output. */
  const Separator: string := "\n\n-----------------\n\n"

  datatype Logs = Logs(stdout: string, stderr: string)

  const Empty: Logs := Logs("", "")

  /** `b` is `a` with text appended to either stream. */
  predicate Extends(a: Logs, b: Logs) {
    a.stdout <= b.stdout && a.stderr <= b.stderr
  }

  /** `logs.stdout += out; logs.stderr += err`. */
  function Append(l: Logs, out: string, err: string): (r: Logs)
    ensures Extends(l, r)
    ensures r.stdout[|l.stdout|..] == out && r.stderr[|l.stderr|..] == err
  {
    Logs(l.stdout + out, l.stderr + err)
  }

  /** Each snapshot extends the one before it. */
  predicate Growing(h: seq<Logs>) {
    |h| <= 1 || (Growing(h[..|h| - 1]) && Extends(h[|h| - 2], h[|h| - 1]))
  }

  lemma {:induction false} GrowingAt(h: seq<Logs>, j: nat)
    requires Growing(h) && 0 < j < |h|
    ensures Extends(h[j - 1], h[j])
  {
    if j < |h| - 1 {
      GrowingAt(h[..|h| - 1], j);
    }
  }

  /** A history stays growing when the new snapshot extends the latest one. */
  lemma GrowingAppend(h: seq<Logs>, l: Logs)
    ensures Growing(h) && |h| > 0 && Extends(h[|h| - 1], l) ==> Growing(h + [l])
  {
    assert (h + [l])[..|h|] == h;
  }

  lemma {:induction false} ExtendsAlong(h: seq<Logs>, i: nat, j: nat)
    requires Growing(h) && i <= j < |h|
    ensures Extends(h[i], h[j])
    decreases j - i
  {
    if i < j {
      ExtendsAlong(h, i, j - 1);
      GrowingAt(h, j);
    }
  }

  /** In a growing history every earlier snapshot is a prefix of every later
      one, on both streams. */
  lemma GrowingIsOrdered(h: seq<Logs>)
    requires Growing(h)
    ensures forall i, j :: 0 <= i <= j < |h| ==> Extends(h[i], h[j])
  {
    forall i, j | 0 <= i <= j < |h|
      ensures Extends(h[i], h[j])
    {
      ExtendsAlong(h, i, j);
    }
  }
}
