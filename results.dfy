/** Outcomes of the generator's and the matrix builder's reading steps.
    Every exception the Python code lets escape becomes an `Err`. */
module Results {

  datatype Option<T> = None | Some(value: T)

  /** The failures the two pipeline stages can run into. */
  datatype Error =
    | FileNotFound(name: string)     // open() of a file that is not in the directory
    | InvalidInt(text: string)       // int() of text that is not a decimal integer
    | NoComma(line: string)          // unpacking line.split(',', 1) into two names
    | EmptySummary                   // next(file) on a summary file with no lines
    | DirectoryNotFound              // the matrix builder's existence check

  datatype Result<T> = Ok(value: T) | Err(error: Error)

  /** `acc` followed by the elements of `r`, or the error of `r`: what a loop
      that appends to `acc` and stops at the first error ends with. */
  function After<T>(acc: seq<T>, r: Result<seq<T>>): Result<seq<T>>
  {
    match r
    case Err(e) => Err(e)
    case Ok(xs) => Ok(acc + xs)
  }

  lemma AfterNothing<T>(r: Result<seq<T>>)
    ensures After([], r) == r
  {
    if r.Ok? {
      assert [] + r.value == r.value;
    }
  }

  lemma AfterAfter<T>(a: seq<T>, b: seq<T>, r: Result<seq<T>>)
    ensures After(a, After(b, r)) == After(a + b, r)
  {
    if r.Ok? {
      assert a + (b + r.value) == (a + b) + r.value;
    }
  }

  /** The values of `rs` in order, or the first error among them: what a
      loop that stops at its first failing step ends with. */
  function Collect<T>(rs: seq<Result<T>>): (r: Result<seq<T>>)
    ensures r.Ok? ==> |r.value| == |rs|
  {
    if rs == [] then Ok([])
    else
      match rs[0]
      case Err(e) => Err(e)
      case Ok(x) => After([x], Collect(rs[1..]))
  }

  /** Collecting succeeds exactly when every step does. */
  lemma {:induction false} CollectOk<T>(rs: seq<Result<T>>)
    ensures Collect(rs).Ok? <==> forall i :: 0 <= i < |rs| ==> rs[i].Ok?
  {
    if rs != [] {
      CollectOk(rs[1..]);
      assert forall i :: 1 <= i < |rs| ==> rs[i] == rs[1..][i - 1];
    }
  }

  /** A successful collection holds every step's value in its place. */
  lemma {:induction false} CollectAt<T>(rs: seq<Result<T>>, i: nat)
    requires Collect(rs).Ok? && i < |rs|
    ensures |Collect(rs).value| == |rs|
    ensures rs[i] == Ok(Collect(rs).value[i])
  {
    if i == 0 {
      if |rs| > 1 {
        CollectAt(rs[1..], 0);
      }
    } else {
      CollectAt(rs[1..], i - 1);
    }
  }

  /** Steps that all succeed collect to their values. */
  lemma {:induction false} CollectAll<T>(rs: seq<Result<T>>, xs: seq<T>)
    requires |rs| == |xs| && forall i :: 0 <= i < |rs| ==> rs[i] == Ok(xs[i])
    ensures Collect(rs) == Ok(xs)
  {
    if rs != [] {
      assert forall i :: 0 <= i < |rs[1..]| ==> rs[1..][i] == Ok(xs[1..][i]);
      CollectAll(rs[1..], xs[1..]);
      assert xs == [xs[0]] + xs[1..];
    }
  }

  /** One more step of the loop: its error, or its value appended. */
  lemma CollectStep<T>(rs: seq<Result<T>>, k: nat, acc: seq<T>)
    requires k < |rs|
    ensures rs[k].Err? ==> After(acc, Collect(rs[k..])) == Err(rs[k].error)
    ensures rs[k].Ok? ==> After(acc, Collect(rs[k..])) == After(acc + [rs[k].value], Collect(rs[k + 1..]))
  {
    var tail := rs[k..];
    assert tail[0] == rs[k] && tail[1..] == rs[k + 1..];
    if rs[k].Ok? {
      AfterAfter(acc, [rs[k].value], Collect(rs[k + 1..]));
    }
  }

  /** The loop has ended: what it appended is the whole result. */
  lemma CollectDone<T>(rs: seq<Result<T>>, acc: seq<T>)
    ensures After(acc, Collect(rs[|rs|..])) == Ok(acc)
  {
    assert rs[|rs|..] == [];
    assert acc + [] == acc;
  }
}
