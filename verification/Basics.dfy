/** Values shared by every module: bytes, results and the errors that end a connection. */
module Basics {

  type byte = b: int | 0 <= b < 256

  datatype Option<+T> = None | Some(value: T)

  /** The errors of src/error.rs that the modelled code can return. */
  datatype Error =
    | CommunicationError
    | IOError
    | FromUtf8Error
    | InvalidOpcode
    | RSVNotZero
    | ControlFramesFragmented
    | ControlFramePayloadSize
    | MaxFrameSize
    | MaxMessageSize
    | CustomFragmentSizeExceeded(fragmentSize: nat, maxFrameSize: nat)
    | InvalidFrameFragmentation
    | FragmentedInProgress
    | InvalidContinuationFrame
    | InvalidHTTPHandshake
    | NoHostHeaderPresent
    | NoSecWebsocketKey
    | InvalidAcceptKey
    | HttpParseError
    | InvalidHTTPRequestLine
    | MissingHTTPMethod
    | MissingHTTPUri
    | MissingHTTPVersion

  datatype Result<+T> = Ok(value: T) | Err(error: Error) {
    predicate IsFailure() { Err? }

    function PropagateFailure<U>(): Result<U>
      requires Err?
    {
      Err(error)
    }

    function Extract(): T
      requires Ok?
    {
      value
    }
  }

  function Flatten<T>(ss: seq<seq<T>>): seq<T> {
    if ss == [] then [] else ss[0] + Flatten(ss[1..])
  }

  lemma FlattenCons<T>(s: seq<T>, ss: seq<seq<T>>)
    ensures Flatten([s] + ss) == s + Flatten(ss) && Flatten<T>([]) == []
  {
    assert ([s] + ss)[1..] == ss;
  }

  lemma {:induction false} FlattenConcat<T>(a: seq<seq<T>>, b: seq<seq<T>>)
    ensures Flatten(a + b) == Flatten(a) + Flatten(b)
    decreases |a|
  {
    hide Flatten;
    if a == [] {
      FlattenCons([], b);
      assert a + b == b;
      assert [] + Flatten(b) == Flatten(b);
    } else {
      var s, more := a[0], a[1..];
      FlattenConcat(more, b);
      FlattenCons(s, more);
      FlattenCons(s, more + b);
      assert [s] + more == a && [s] + (more + b) == a + b;
      assert s + (Flatten(more) + Flatten(b)) == s + Flatten(more) + Flatten(b);
    }
  }

  /** w is made of a and b, each in its order. */
  ghost predicate Merges<T>(w: seq<T>, a: seq<T>, b: seq<T>)
    decreases |w|
  {
    if w == [] then a == [] && b == []
    else
      || (a != [] && a[0] == w[0] && Merges(w[1..], a[1..], b))
      || (b != [] && b[0] == w[0] && Merges(w[1..], a, b[1..]))
  }

  lemma {:induction false} MergesConcat<T>(w: seq<T>, a: seq<T>, b: seq<T>,
                                           w': seq<T>, a': seq<T>, b': seq<T>)
    requires Merges(w, a, b) && Merges(w', a', b')
    ensures Merges(w + w', a + a', b + b')
    decreases |w|
  {
    if w == [] {
      assert w + w' == w' && a + a' == a' && b + b' == b';
    } else {
      assert (w + w')[1..] == w[1..] + w';
      if a != [] && a[0] == w[0] && Merges(w[1..], a[1..], b) {
        MergesConcat(w[1..], a[1..], b, w', a', b');
        assert (a + a')[1..] == a[1..] + a';
      } else {
        MergesConcat(w[1..], a, b[1..], w', a', b');
        assert (b + b')[1..] == b[1..] + b';
      }
    }
  }

  lemma {:induction false} MergesAlone<T>(w: seq<T>)
    ensures Merges(w, w, []) && Merges(w, [], w)
    decreases |w|
  {
    if w != [] { MergesAlone(w[1..]); }
  }

  lemma MergesBefore<T>(b: seq<T>, a: seq<T>, w: seq<T>, a': seq<T>, b': seq<T>)
    requires Merges(w, a', b')
    ensures Merges(b + a + w, a + a', b + b') && Merges(b + a, a, b)
  {
    hide Merges;
    MergesAlone(b);
    MergesAlone(a);
    MergesConcat(b, [], b, a, a, []);
    assert [] + a == a && b + [] == b;
    MergesConcat(b + a, a, b, w, a', b');
  }

  lemma MergesSnoc<T>(w: seq<T>, a: seq<T>, b: seq<T>, more: seq<T>)
    requires Merges(w, a, b)
    ensures Merges(w + more, a + more, b) && Merges(w + more, a, b + more)
  {
    hide Merges;
    MergesAlone(more);
    MergesConcat(w, a, b, more, more, []);
    MergesConcat(w, a, b, more, [], more);
    assert a + [] == a && b + [] == b;
  }

  lemma {:induction false} MergesMembers<T>(w: seq<T>, a: seq<T>, b: seq<T>)
    requires Merges(w, a, b)
    ensures forall x | x in w :: x in a || x in b
    decreases |w|
  {
    if w != [] {
      if a != [] && a[0] == w[0] && Merges(w[1..], a[1..], b) {
        MergesMembers(w[1..], a[1..], b);
      } else {
        MergesMembers(w[1..], a, b[1..]);
      }
    }
  }
}
