/**
  The collaborators the provider code borrows from its task runner: command
  arguments that carry a secret (`Elidable` built from plain strings and one
  `Secret`), the result of a shell command and the error raised for it, and
  `project`, which applies a fetch to every item of a list.
 */
module Tasks {

  /** One piece of a command argument: text anybody may see, or a secret. */
  datatype Segment = Shown(text: string) | Hidden(secret: string)

  /** A command argument as a sequence of segments (an `Elidable`). */
  type Arg = seq<Segment>

  /** An argument that is one ordinary string. */
  function Plain(s: string): (a: Arg)
    ensures Real(a) == s && Secrets(a) == []
  {
    [Shown(s)]
  }

  /** The argument handed to the process: every secret in clear. */
  function Real(a: Arg): string {
    if a == [] then ""
    else (match a[0] case Shown(t) => t case Hidden(x) => x) + Real(a[1..])
  }

  /** The argument as logged or echoed: every secret replaced by `marker`. */
  function Display(a: Arg, marker: string): string {
    if a == [] then ""
    else (match a[0] case Shown(t) => t case Hidden(_) => marker) + Display(a[1..], marker)
  }

  /** The secrets an argument carries, in order. */
  function Secrets(a: Arg): seq<string> {
    if a == [] then []
    else (match a[0] case Shown(_) => [] case Hidden(x) => [x]) + Secrets(a[1..])
  }

  /** The argument with every secret blanked: all that a display may depend on. */
  function Skeleton(a: Arg): (k: Arg)
    ensures |k| == |a|
    ensures forall i :: 0 <= i < |a| ==> k[i] == (if a[i].Shown? then a[i] else Hidden(""))
  {
    if a == [] then []
    else [if a[0].Shown? then a[0] else Hidden("")] + Skeleton(a[1..])
  }

  lemma {:induction false} RealAppend(a: Arg, b: Arg)
    ensures Real(a + b) == Real(a) + Real(b)
  {
    if a != [] {
      assert (a + b)[1..] == a[1..] + b;
      RealAppend(a[1..], b);
    } else {
      assert a + b == b;
    }
  }

  lemma {:induction false} DisplayAppend(a: Arg, b: Arg, marker: string)
    ensures Display(a + b, marker) == Display(a, marker) + Display(b, marker)
  {
    if a != [] {
      assert (a + b)[1..] == a[1..] + b;
      DisplayAppend(a[1..], b, marker);
    } else {
      assert a + b == b;
    }
  }

  lemma {:induction false} SecretsAppend(a: Arg, b: Arg)
    ensures Secrets(a + b) == Secrets(a) + Secrets(b)
  {
    if a != [] {
      assert (a + b)[1..] == a[1..] + b;
      SecretsAppend(a[1..], b);
    } else {
      assert a + b == b;
    }
  }

  /** An argument of three segments renders segment by segment. */
  lemma Render3(x: Segment, y: Segment, z: Segment, marker: string)
    ensures Real([x, y, z]) == Real([x]) + Real([y]) + Real([z])
    ensures Display([x, y, z], marker) == Display([x], marker) + Display([y], marker) + Display([z], marker)
    ensures Secrets([x, y, z]) == Secrets([x]) + Secrets([y]) + Secrets([z])
  {
    assert [x, y, z] == [x] + [y] + [z];
    RealAppend([x] + [y], [z]);
    RealAppend([x], [y]);
    DisplayAppend([x] + [y], [z], marker);
    DisplayAppend([x], [y], marker);
    SecretsAppend([x] + [y], [z]);
    SecretsAppend([x], [y]);
  }

  /** An argument of two segments renders segment by segment. */
  lemma Render2(x: Segment, y: Segment, marker: string)
    ensures Real([x, y]) == Real([x]) + Real([y])
    ensures Display([x, y], marker) == Display([x], marker) + Display([y], marker)
    ensures Secrets([x, y]) == Secrets([x]) + Secrets([y])
  {
    assert [x, y] == [x] + [y];
    RealAppend([x], [y]);
    DisplayAppend([x], [y], marker);
    SecretsAppend([x], [y]);
  }

  /**
    What is displayed never depends on the secrets: two arguments that differ
    only in their hidden payloads display the same.
   */
  lemma {:induction false} DisplayIgnoresSecrets(a: Arg, b: Arg, marker: string)
    requires Skeleton(a) == Skeleton(b)
    ensures Display(a, marker) == Display(b, marker)
  {
    if a != [] {
      assert Skeleton(a)[0] == Skeleton(b)[0];
      assert Skeleton(a[1..]) == Skeleton(a)[1..];
      assert Skeleton(b[1..]) == Skeleton(b)[1..];
      DisplayIgnoresSecrets(a[1..], b[1..], marker);
    }
  }

  /** What a shell command reports: its exit code and its captured output. */
  datatype ShResult = ShResult(code: int, output: string)

  /** `TaskError`: the failure raised with a command's result attached. */
  datatype TaskError = TaskError(code: int, output: string)

  /** A value, or the `TaskError` the call raises instead. */
  datatype Result<+T> = Ok(value: T) | Err(error: TaskError)

  /**
    `project`: apply `f` to every item and collect the results in the order of
    the items.  The task runner runs the calls concurrently; only the order of
    the results is observable, so the model applies them one after another.
   */
  method Project<X, Y>(f: X -> Y, items: seq<X>) returns (results: seq<Y>)
    ensures |results| == |items|
    ensures forall i :: 0 <= i < |items| ==> results[i] == f(items[i])
  {
    results := [];
    var i := 0;
    while i < |items|
      invariant 0 <= i <= |items|
      invariant |results| == i
      invariant forall j :: 0 <= j < i ==> results[j] == f(items[j])
    {
      results := results + [f(items[i])];
      i := i + 1;
    }
  }
}
