/**
 * The argument framing of Prawn::Bin: `exec` turns keyword arguments into a
 * command line of `--name value` pairs for a worker script, and the worker
 * reads them back with `args_to_kwargs`.  Ruby's Marshal format is abstract:
 * a codec whose `load` may reject its input.
 */
module Bin {
  import opened Wrappers
  import opened Errors

  /** Marshal.dump and Marshal.load for values of type V; `load` gives None where Marshal.load raises. */
  datatype Codec<!V> = Codec(dump: V -> string, load: string -> Option<V>)

  /** Loading what was dumped gives the value back. */
  ghost predicate Lossless<V(!new)>(c: Codec<V>)
  {
    forall v :: c.load(c.dump(v)) == Some(v)
  }

  /** Marshal.load reads one object from the front of its input and ignores what follows it. */
  ghost predicate ReadsOneObject<V(!new)>(c: Codec<V>)
  {
    forall v, rest: string :: c.load(c.dump(v) + rest) == Some(v)
  }

  /**
   * A Ruby keyword-argument hash: an insertion-ordered list of (symbol name, value)
   * pairs, each name at most once.
   */
  type Kwargs<V> = seq<(string, V)>

  function Names<V>(kw: Kwargs<V>): (r: seq<string>)
    ensures |r| == |kw| && forall i :: 0 <= i < |kw| ==> r[i] == kw[i].0
  {
    if |kw| == 0 then [] else [kw[0].0] + Names(kw[1..])
  }

  predicate DistinctNames<V>(kw: Kwargs<V>)
  {
    forall i, j :: 0 <= i < j < |kw| ==> kw[i].0 != kw[j].0
  }

  /** `hash[name]`: the value stored under `name`, or nil. */
  function Get<V>(kw: Kwargs<V>, name: string): (r: Option<V>)
    ensures r.None? <==> name !in Names(kw)
  {
    if |kw| == 0 then None
    else if kw[0].0 == name then Some(kw[0].1)
    else Get(kw[1..], name)
  }

  /**
   * `hash[name] = value`: a new name goes to the end, an existing one keeps its
   * place and gets the new value.
   */
  function Put<V>(kw: Kwargs<V>, name: string, value: V): (r: Kwargs<V>)
    ensures Get(r, name) == Some(value)
    ensures forall other :: other != name ==> Get(r, other) == Get(kw, other)
  {
    if |kw| == 0 then [(name, value)]
    else if kw[0].0 == name then [(name, value)] + kw[1..]
    else [kw[0]] + Put(kw[1..], name, value)
  }

  /** Assigning keeps the order of the names; only a new name is added, at the end. */
  lemma {:induction false} PutNames<V>(kw: Kwargs<V>, name: string, value: V)
    ensures name in Names(kw) ==> Names(Put(kw, name, value)) == Names(kw)
    ensures name !in Names(kw) ==> Names(Put(kw, name, value)) == Names(kw) + [name]
  {
    if |kw| > 0 {
      var r := Put(kw, name, value);
      assert Names(kw) == [kw[0].0] + Names(kw[1..]);
      if kw[0].0 == name {
        assert r[1..] == kw[1..];
        assert Names(r) == [name] + Names(kw[1..]);
      } else {
        PutNames(kw[1..], name, value);
        assert r[1..] == Put(kw[1..], name, value);
        assert Names(r) == [kw[0].0] + Names(Put(kw[1..], name, value));
      }
    }
  }

  /** String#delete_prefix: `s` without one leading `prefix`, or `s` itself when it does not start with it. */
  function DeletePrefix(s: string, prefix: string): (r: string)
    ensures prefix <= s ==> prefix + r == s
    ensures !(prefix <= s) ==> r == s
  {
    if prefix <= s then s[|prefix|..] else s
  }

  /**
   * Line 8 of `exec`: `kwargs.flat_map { |key, val| ["--#{key}", Marshal.dump(val)] }`.
   */
  function ExecArgs<V>(kw: Kwargs<V>, c: Codec<V>): (r: seq<string>)
    ensures |r| == 2 * |kw|
  {
    if |kw| == 0 then [] else ["--" + kw[0].0, c.dump(kw[0].1)] + ExecArgs(kw[1..], c)
  }

  /** The `i`-th pair of the command line is `--name` and the dumped value of the `i`-th keyword argument. */
  lemma {:induction false} ExecArgsPairs<V>(kw: Kwargs<V>, c: Codec<V>)
    ensures forall i :: 0 <= i < |kw| ==>
      ExecArgs(kw, c)[2 * i] == "--" + kw[i].0 && ExecArgs(kw, c)[2 * i + 1] == c.dump(kw[i].1)
  {
    if |kw| > 0 {
      var rest := ExecArgs(kw[1..], c);
      var r := ExecArgs(kw, c);
      assert r == ["--" + kw[0].0, c.dump(kw[0].1)] + rest;
      ExecArgsPairs(kw[1..], c);
      forall i | 1 <= i < |kw|
        ensures r[2 * i] == "--" + kw[i].0 && r[2 * i + 1] == c.dump(kw[i].1)
      {
        var k := i - 1;
        assert kw[1..][k] == kw[i];
        assert r[2 * k + 2] == rest[2 * k];
        assert r[2 * k + 3] == rest[2 * k + 1];
      }
    }
  }

  /** The name of the `j`-th pair of an argument list, its leading `--` removed. */
  function NameAt(argv: seq<string>, j: nat): string
    requires 2 * j + 1 < |argv|
  {
    DeletePrefix(argv[2 * j], "--")
  }

  /** The dumped value of the `j`-th pair of an argument list. */
  function ValueAt(argv: seq<string>, j: nat): string
    requires 2 * j + 1 < |argv|
  {
    argv[2 * j + 1]
  }

  /**
   * `argv.each_slice(2).to_h { |(name, value)| [name.delete_prefix('--').to_sym, Marshal.load(value)] }`,
   * with the pairs before `argv` already collected into `acc`.  A trailing name without a value
   * makes Marshal.load see nil.
   */
  function Collect<V>(argv: seq<string>, acc: Kwargs<V>, c: Codec<V>): (r: Result<Kwargs<V>, Error>)
    ensures r.Err? ==> r.error == MissingArgumentValue || r.error == UnreadableValue
    ensures r.Ok? ==> |argv| % 2 == 0
    decreases |argv|
  {
    if |argv| == 0 then Ok(acc)
    else if |argv| == 1 then Err(MissingArgumentValue)
    else
      match c.load(argv[1])
      case None => Err(UnreadableValue)
      case Some(v) => Collect(argv[2..], Put(acc, DeletePrefix(argv[0], "--"), v), c)
  }

  /** `args_to_kwargs(argv)`: a hash is returned only for whole pairs, and the only exceptions
      are a missing value and a value Marshal.load rejects. */
  /** A name collected before the rest of argv is read stays a key of the result. */
  lemma {:induction false} CollectKeepsNames<V>(argv: seq<string>, acc: Kwargs<V>, c: Codec<V>, name: string)
    requires Collect(argv, acc, c).Ok? && Get(acc, name).Some?
    ensures Get(Collect(argv, acc, c).value, name).Some?
    decreases |argv|
  {
    if |argv| >= 2 {
      var v := c.load(argv[1]).value;
      CollectKeepsNames(argv[2..], Put(acc, DeletePrefix(argv[0], "--"), v), c, name);
    }
  }

  function ArgsToKwargs<V>(argv: seq<string>, c: Codec<V>): (r: Result<Kwargs<V>, Error>)
    ensures r.Err? ==> r.error == MissingArgumentValue || r.error == UnreadableValue
    ensures r.Ok? ==> |argv| % 2 == 0
  {
    Collect(argv, [], c)
  }

  lemma {:induction false} PairsOfTail(argv: seq<string>)
    requires |argv| >= 2
    ensures |argv[2..]| / 2 == |argv| / 2 - 1
    ensures forall j: nat :: 2 * j + 1 < |argv[2..]| ==>
      NameAt(argv[2..], j) == NameAt(argv, j + 1) && ValueAt(argv[2..], j) == ValueAt(argv, j + 1)
  {
  }

  /** The argument list is read back exactly when it has whole pairs and every value loads. */
  lemma {:induction false} CollectSucceeds<V>(argv: seq<string>, acc: Kwargs<V>, c: Codec<V>)
    ensures Collect(argv, acc, c).Ok? <==>
      |argv| % 2 == 0 && forall j: nat :: j < |argv| / 2 ==> c.load(ValueAt(argv, j)).Some?
  {
    if |argv| >= 2 {
      PairsOfTail(argv);
      match c.load(argv[1])
      case None =>
        assert ValueAt(argv, 0) == argv[1];
      case Some(v) =>
        var acc' := Put(acc, DeletePrefix(argv[0], "--"), v);
        CollectSucceeds(argv[2..], acc', c);
        if |argv| % 2 == 0 && forall j: nat :: j < |argv| / 2 ==> c.load(ValueAt(argv, j)).Some? {
          assert forall j: nat :: j < |argv[2..]| / 2 ==> c.load(ValueAt(argv[2..], j)).Some? by {
            forall j: nat | j < |argv[2..]| / 2
              ensures c.load(ValueAt(argv[2..], j)).Some?
            {
              assert ValueAt(argv[2..], j) == ValueAt(argv, j + 1);
            }
          }
        }
        if Collect(argv, acc, c).Ok? {
          forall j: nat | j < |argv| / 2
            ensures c.load(ValueAt(argv, j)).Some?
          {
            if j > 0 {
              assert ValueAt(argv[2..], j - 1) == ValueAt(argv, j);
            }
          }
        }
    }
  }

  /** An odd argument list whose values all load fails on the last name, which has no value. */
  lemma {:induction false} OddArgvFails<V>(argv: seq<string>, acc: Kwargs<V>, c: Codec<V>)
    requires |argv| % 2 == 1
    requires forall j: nat :: j < |argv| / 2 ==> c.load(ValueAt(argv, j)).Some?
    ensures Collect(argv, acc, c) == Err(MissingArgumentValue)
  {
    if |argv| > 1 {
      PairsOfTail(argv);
      assert ValueAt(argv, 0) == argv[1];
      var v := c.load(argv[1]).value;
      forall j: nat | j < |argv[2..]| / 2
        ensures c.load(ValueAt(argv[2..], j)).Some?
      {
        assert ValueAt(argv[2..], j) == ValueAt(argv, j + 1);
      }
      OddArgvFails(argv[2..], Put(acc, DeletePrefix(argv[0], "--"), v), c);
    }
  }

  /**
   * What the collected hash holds under `name`: the value of the last pair with
   * that name, and what `acc` held when no pair has it.
   */
  lemma {:induction false} CollectBindings<V>(argv: seq<string>, acc: Kwargs<V>, c: Codec<V>,
                                                kw: Kwargs<V>, name: string)
    requires Collect(argv, acc, c) == Ok(kw)
    ensures (forall j: nat :: 2 * j + 1 < |argv| ==> NameAt(argv, j) != name) ==> Get(kw, name) == Get(acc, name)
    ensures forall j: nat ::
      (2 * j + 1 < |argv| && NameAt(argv, j) == name &&
       forall j': nat :: j < j' && 2 * j' + 1 < |argv| ==> NameAt(argv, j') != name) ==>
      Get(kw, name) == c.load(ValueAt(argv, j))
  {
    if |argv| >= 2 {
      PairsOfTail(argv);
      var v := c.load(argv[1]).value;
      var acc' := Put(acc, DeletePrefix(argv[0], "--"), v);
      CollectBindings(argv[2..], acc', c, kw, name);
      assert NameAt(argv, 0) == DeletePrefix(argv[0], "--") && ValueAt(argv, 0) == argv[1];
      forall j: nat | 2 * j + 1 < |argv| && NameAt(argv, j) == name &&
        (forall j': nat :: j < j' && 2 * j' + 1 < |argv| ==> NameAt(argv, j') != name)
        ensures Get(kw, name) == c.load(ValueAt(argv, j))
      {
        if j == 0 {
          forall j': nat | 2 * j' + 1 < |argv[2..]|
            ensures NameAt(argv[2..], j') != name
          {
            assert NameAt(argv[2..], j') == NameAt(argv, j' + 1);
          }
        } else {
          assert NameAt(argv[2..], j - 1) == NameAt(argv, j);
          assert ValueAt(argv[2..], j - 1) == ValueAt(argv, j);
          forall j': nat | j - 1 < j' && 2 * j' + 1 < |argv[2..]|
            ensures NameAt(argv[2..], j') != name
          {
            assert NameAt(argv[2..], j') == NameAt(argv, j' + 1);
          }
        }
      }
      if forall j: nat :: 2 * j + 1 < |argv| ==> NameAt(argv, j) != name {
        forall j': nat | 2 * j' + 1 < |argv[2..]|
          ensures NameAt(argv[2..], j') != name
        {
          assert NameAt(argv[2..], j') == NameAt(argv, j' + 1);
        }
      }
    }
  }

  /** When a name repeats, the value of its later pair wins (Hash#to_h overwrites). */
  lemma LaterPairWins<V>(argv: seq<string>, c: Codec<V>, kw: Kwargs<V>, j: nat)
    requires ArgsToKwargs(argv, c) == Ok(kw)
    requires 2 * j + 1 < |argv|
    requires forall j': nat :: j < j' && 2 * j' + 1 < |argv| ==> NameAt(argv, j') != NameAt(argv, j)
    ensures Get(kw, NameAt(argv, j)) == c.load(ValueAt(argv, j))
  {
    CollectBindings(argv, [], c, kw, NameAt(argv, j));
  }

  /** A name that no pair carries is not a key of the result. */
  lemma AbsentName<V>(argv: seq<string>, c: Codec<V>, kw: Kwargs<V>, name: string)
    requires ArgsToKwargs(argv, c) == Ok(kw)
    requires forall j: nat :: 2 * j + 1 < |argv| ==> NameAt(argv, j) != name
    ensures Get(kw, name) == None
  {
    CollectBindings(argv, [], c, kw, name);
  }

  lemma {:induction false} CollectExecArgs<V(!new)>(kw: Kwargs<V>, acc: Kwargs<V>, c: Codec<V>)
    requires Lossless(c)
    requires DistinctNames(acc + kw)
    ensures Collect(ExecArgs(kw, c), acc, c) == Ok(acc + kw)
  {
    if |kw| == 0 {
      assert acc + kw == acc;
    } else {
      var argv := ExecArgs(kw, c);
      var (k, v) := kw[0];
      assert argv[0] == "--" + k && argv[1] == c.dump(v);
      assert argv[2..] == ExecArgs(kw[1..], c);
      assert DeletePrefix(argv[0], "--") == k;
      assert k !in Names(acc) by {
        forall i | 0 <= i < |acc| ensures acc[i].0 != k {
          assert (acc + kw)[i] == acc[i] && (acc + kw)[|acc|] == kw[0];
        }
      }
      PutNew(acc, k, v);
      ShiftFirst(acc, kw);
      CollectExecArgs(kw[1..], acc + [(k, v)], c);
    }
  }

  lemma ShiftFirst<T>(front: seq<T>, back: seq<T>)
    requires |back| > 0
    ensures front + [back[0]] + back[1..] == front + back
  {
    assert back == [back[0]] + back[1..];
  }

  lemma ConsFirst<T>(front: seq<T>, back: seq<T>)
    requires |front| > 0
    ensures [front[0]] + (front[1..] + back) == front + back
  {
    assert front == [front[0]] + front[1..];
  }

  lemma {:induction false} PutNew<V>(kw: Kwargs<V>, name: string, value: V)
    requires name !in Names(kw)
    ensures Put(kw, name, value) == kw + [(name, value)]
  {
    if |kw| > 0 {
      assert Names(kw)[0] == kw[0].0;
      assert name !in Names(kw[1..]) by {
        assert Names(kw) == [kw[0].0] + Names(kw[1..]);
      }
      PutNew(kw[1..], name, value);
      assert Put(kw, name, value) == [kw[0]] + (kw[1..] + [(name, value)]);
      ConsFirst(kw, [(name, value)]);
    }
  }

  /** The worker reads back exactly the keyword arguments `exec` was given. */
  lemma RoundTrip<V(!new)>(kw: Kwargs<V>, c: Codec<V>)
    requires Lossless(c)
    requires DistinctNames(kw)
    ensures ArgsToKwargs(ExecArgs(kw, c), c) == Ok(kw)
  {
    assert [] + kw == kw;
    CollectExecArgs(kw, [], c);
  }

  /** What `Open3.capture3` reports about a finished worker. */
  datatype Capture = Capture(stdout: string, stderr: string, status: int)

  /**
   * `exec(script, **kwargs)`: the worker `run` gets the framed arguments; a non-zero
   * status raises with the worker's standard error, otherwise its output is loaded.
   */
  function Exec<V>(script: string, kw: Kwargs<V>, c: Codec<V>, run: (string, seq<string>) -> Capture): (r: Result<V, Error>)
    ensures run(script, ExecArgs(kw, c)).status != 0 <==> r == Err(TaskFailed(run(script, ExecArgs(kw, c)).stderr))
    ensures r.Ok? ==> c.load(run(script, ExecArgs(kw, c)).stdout) == Some(r.value)
    ensures run(script, ExecArgs(kw, c)).status == 0 ==>
      && (r.Ok? <==> c.load(run(script, ExecArgs(kw, c)).stdout).Some?)
      && (r.Err? ==> r == Err(UnreadableValue))
  {
    var result := run(script, ExecArgs(kw, c));
    if result.status != 0 then Err(TaskFailed(result.stderr))
    else
      match c.load(result.stdout)
      case None => Err(UnreadableValue)
      case Some(v) => Ok(v)
  }

  /** `puts s`: the string followed by a newline, unless it already ends with one. */
  function Puts(s: string): (r: string)
    ensures s <= r && |r| <= |s| + 1 && |r| > 0 && r[|r| - 1] == '\n'
    ensures |s| > 0 && s[|s| - 1] == '\n' ==> r == s
  {
    if |s| > 0 && s[|s| - 1] == '\n' then s else s + "\n"
  }

  /** `print_return_value(v)`: what a worker writes to its standard output. */
  function PrintReturnValue<V>(v: V, c: Codec<V>): (r: string)
    ensures exists rest: string :: r == c.dump(v) + rest
  {
    var r := Puts(c.dump(v));
    assert r == c.dump(v) + r[|c.dump(v)|..];
    r
  }

  /** A worker that exits cleanly having printed `v` with `print_return_value` hands `v` back
      to the caller. */
  lemma ExecReturnsWorkerValue<V(!new)>(script: string, kw: Kwargs<V>, c: Codec<V>,
                                  run: (string, seq<string>) -> Capture, v: V)
    requires ReadsOneObject(c)
    requires run(script, ExecArgs(kw, c)).status == 0
    requires run(script, ExecArgs(kw, c)).stdout == PrintReturnValue(v, c)
    ensures Exec(script, kw, c, run) == Ok(v)
  {
    var rest: string :| PrintReturnValue(v, c) == c.dump(v) + rest;
    assert c.load(c.dump(v) + rest) == Some(v);
  }

  /** A codec that reads one object and ignores the rest is lossless. */
  lemma ReadsOneObjectLossless<V(!new)>(c: Codec<V>)
    requires ReadsOneObject(c)
    ensures Lossless(c)
  {
    forall v ensures c.load(c.dump(v)) == Some(v) {
      var d, none: string := c.dump(v), [];
      assert c.load(d + none) == Some(v);
      assert d + none == d;
    }
  }
}
