/** Failure-carrying results shared by every module of the model. */
module Base {

  /** A value that may be absent: Rust's `Option`, or a JavaScript `undefined`. */
  datatype Option<+T> = None | Some(value: T)

  /** The outcome of an operation that can fail with a message, as Rust's
      `Result<T, String>`. */
  datatype Result<+T> = Ok(value: T) | Err(message: string)

  /** The present values among `opts`, in order: Rust's `filter_map`. */
  function Somes<T(!new)>(opts: seq<Option<T>>): (r: seq<T>)
    ensures |r| <= |opts|
    ensures forall x :: x in r <==> Some(x) in opts
    decreases |opts|
  {
    if |opts| == 0 then []
    else
      var init := Somes(opts[..|opts| - 1]);
      assert opts == opts[..|opts| - 1] + [opts[|opts| - 1]];
      match opts[|opts| - 1]
      case Some(x) => init + [x]
      case None => init
  }

  /** When every option is present, `Somes` keeps them all. */
  lemma {:induction false} SomesOfAllSome<T(!new)>(opts: seq<Option<T>>, vals: seq<T>)
    requires |opts| == |vals|
    requires forall i :: 0 <= i < |opts| ==> opts[i] == Some(vals[i])
    ensures Somes(opts) == vals
    decreases |opts|
  {
    if |opts| > 0 {
      var n := |opts| - 1;
      SomesOfAllSome(opts[..n], vals[..n]);
      assert opts == opts[..n] + [opts[n]];
      SomesSnoc(opts[..n], opts[n]);
      assert vals[..n] + [vals[n]] == vals;
    }
  }

  /** One more option adds its value at the end when it is present. */
  lemma SomesSnoc<T(!new)>(opts: seq<Option<T>>, o: Option<T>)
    ensures Somes(opts + [o]) == Somes(opts) + if o.Some? then [o.value] else []
  {
    var s := opts + [o];
    assert s[..|s| - 1] == opts;
    assert s[|s| - 1] == o;
  }

  /** `Somes` distributes over concatenation: the present values of `a + b`
      are those of `a` followed by those of `b`. */
  lemma {:induction false} SomesAppend<T(!new)>(a: seq<Option<T>>, b: seq<Option<T>>)
    ensures Somes(a + b) == Somes(a) + Somes(b)
    decreases |b|
  {
    if |b| == 0 {
      assert a + b == a;
    } else {
      var n := |b| - 1;
      var init := b[..n];
      assert b == init + [b[n]];
      assert a + b == (a + init) + [b[n]];
      SomesAppend(a, init);
      SomesSnoc(a + init, b[n]);
      SomesSnoc(init, b[n]);
    }
  }

  /** A single option contributes its value when present and nothing when
      absent; with `SomesAppend` this says every present value is kept,
      once, in input order. */
  lemma SomesSingle<T(!new)>(o: Option<T>)
    ensures Somes([o]) == if o.Some? then [o.value] else []
  {
    assert [o][..0] == [];
  }
}
