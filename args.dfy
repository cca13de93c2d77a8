/**
 * mytar's command line: the arguments after the program name, the search
 * for an option (`find_option_loc`), the operands left over as file names
 * (`prepare_unused_files_from_args`), and the classification that
 * `parse_args` arrives at, stated as one function of the argument values.
 */
module Args {
  import opened TarFormat
  import opened Archive

  /** One command-line argument (`struct arg`): its text and whether an option parser consumed it. */
  datatype Arg = Arg(value: Bytes, handled: bool)

  const Dash: byte := '-' as byte

  const OptF: Bytes := [Dash, 'f' as byte]
  const OptT: Bytes := [Dash, 't' as byte]
  const OptX: Bytes := [Dash, 'x' as byte]
  const OptV: Bytes := [Dash, 'v' as byte]

  /** `find_option_loc`'s "not found" answer (`NO_OPT_FOUNT_IDX`). */
  const NotFound: int := -1

  function ValuesOf(args: seq<Arg>): (vs: seq<Bytes>)
    ensures |vs| == |args|
    ensures forall i :: 0 <= i < |args| ==> vs[i] == args[i].value
  {
    seq(|args|, i requires 0 <= i < |args| => args[i].value)
  }

  /** `prepare_args`: the arguments after the program name, none consumed yet. */
  function Unparsed(values: seq<Bytes>): (args: seq<Arg>)
    ensures |args| == |values| && ValuesOf(args) == values
    ensures forall i :: 0 <= i < |values| ==> args[i] == Arg(values[i], false)
  {
    var args := seq(|values|, i requires 0 <= i < |values| => Arg(values[i], false));
    assert ValuesOf(args) == values;
    args
  }

  /** The arguments with the one at position `i` marked consumed; nothing changes for -1. */
  function MarkConsumed(args: seq<Arg>, i: int): (r: seq<Arg>)
    ensures |r| == |args| && ValuesOf(r) == ValuesOf(args)
    ensures forall k :: 0 <= k < |args| ==> r[k].handled == (args[k].handled || k == i)
  {
    if 0 <= i < |args| then args[i := args[i].(handled := true)] else args
  }

  /** The position of the first argument equal to `opt`, or -1. */
  function OptionIndex(values: seq<Bytes>, opt: Bytes): (r: int)
    ensures -1 <= r < |values|
    ensures r == NotFound <==> opt !in values
    ensures r != NotFound ==> values[r] == opt && opt !in values[..r]
  {
    if values == [] then NotFound
    else if values[0] == opt then 0
    else
      var r := OptionIndex(values[1..], opt);
      assert forall x :: x in values <==> x == values[0] || x in values[1..];
      if r == NotFound then NotFound
      else
        assert values[..r + 1] == [values[0]] + values[1..][..r];
        r + 1
  }

  /** The first position holding `opt` is the only one with nothing equal to `opt` before it. */
  lemma OptionIndexUnique(values: seq<Bytes>, opt: Bytes, i: nat)
    requires i < |values| && values[i] == opt && opt !in values[..i]
    ensures OptionIndex(values, opt) == i
  {
  }

  /** `is_not_opt`: the argument does not start with '-' (an empty one does not). */
  predicate IsNotOpt(arg: Bytes)
  {
    |arg| == 0 || arg[0] != Dash
  }

  /** The values that do not start with '-', in order. */
  function NonOptions(values: seq<Bytes>): (r: seq<Bytes>)
    ensures |r| <= |values|
  {
    if values == [] then []
    else
      var last := values[|values| - 1];
      NonOptions(values[..|values| - 1]) + (if IsNotOpt(last) then [last] else [])
  }

  /** The non-option values are exactly the values that do not start with '-'. */
  lemma {:induction false} NonOptionsMembers(values: seq<Bytes>)
    ensures forall x :: x in NonOptions(values) <==> x in values && IsNotOpt(x)
    decreases |values|
  {
    if values != [] {
      var init := values[..|values| - 1];
      NonOptionsMembers(init);
      assert values == init + [values[|values| - 1]];
    }
  }

  lemma {:induction false} NonOptionsAppend(a: seq<Bytes>, b: seq<Bytes>)
    ensures NonOptions(a + b) == NonOptions(a) + NonOptions(b)
    decreases |b|
  {
    if b == [] {
      assert a + b == a;
    } else {
      var init := b[..|b| - 1];
      assert (a + b)[..|a + b| - 1] == a + init;
      NonOptionsAppend(a, init);
    }
  }

  /**
   * `prepare_unused_files_from_args`: the values of the arguments that no
   * option parser consumed and that do not start with '-', in order.
   */
  function UnusedFiles(args: seq<Arg>): (r: seq<Bytes>)
    ensures |r| <= |args|
  {
    if args == [] then []
    else
      var last := args[|args| - 1];
      UnusedFiles(args[..|args| - 1]) + (if !last.handled && IsNotOpt(last.value) then [last.value] else [])
  }

  lemma {:induction false} UnusedFilesAppend(a: seq<Arg>, b: seq<Arg>)
    ensures UnusedFiles(a + b) == UnusedFiles(a) + UnusedFiles(b)
    decreases |b|
  {
    if b == [] {
      assert a + b == a;
    } else {
      var init := b[..|b| - 1];
      assert (a + b)[..|a + b| - 1] == a + init;
      UnusedFilesAppend(a, init);
    }
  }

  /**
   * When the only consumed argument that does not start with '-' is the
   * one at `skip`, the unused files are the non-option values before and
   * after it.
   */
  lemma UnusedFilesSkipping(args: seq<Arg>, skip: nat)
    requires skip < |args|
    requires forall j :: 0 <= j < |args| && j != skip && args[j].handled ==> !IsNotOpt(args[j].value)
    requires args[skip].handled
    ensures UnusedFiles(args) == NonOptions(ValuesOf(args)[..skip]) + NonOptions(ValuesOf(args)[skip + 1..])
  {
    UnusedFilesAround(args, skip);
    UnusedFilesNoneBefore(args, skip);
    UnusedFilesNoneAfter(args, skip);
  }

  lemma UnusedFilesAround(args: seq<Arg>, skip: nat)
    requires skip < |args| && args[skip].handled
    ensures UnusedFiles(args) == UnusedFiles(args[..skip]) + UnusedFiles(args[skip + 1..])
  {
    SplitAround(args, skip);
    UnusedFilesAroundConsumed(args[..skip], args[skip], args[skip + 1..]);
  }

  lemma SplitAround<T>(s: seq<T>, k: nat)
    requires k < |s|
    ensures s == s[..k] + [s[k]] + s[k + 1..]
  {
  }

  lemma UnusedFilesAroundConsumed(before: seq<Arg>, a: Arg, after: seq<Arg>)
    requires a.handled
    ensures UnusedFiles(before + [a] + after) == UnusedFiles(before) + UnusedFiles(after)
  {
    UnusedFilesAppend(before + [a], after);
    UnusedFilesAppend(before, [a]);
    UnusedFilesOfConsumed(a);
  }

  lemma UnusedFilesOfConsumed(a: Arg)
    requires a.handled
    ensures UnusedFiles([a]) == []
  {
    assert [a][..0] == [];
  }

  lemma UnusedFilesNoneBefore(args: seq<Arg>, skip: nat)
    requires skip <= |args|
    requires forall j :: 0 <= j < |args| && j != skip && args[j].handled ==> !IsNotOpt(args[j].value)
    ensures UnusedFiles(args[..skip]) == NonOptions(ValuesOf(args)[..skip])
  {
    var part := args[..skip];
    forall j | 0 <= j < |part| && part[j].handled
      ensures !IsNotOpt(part[j].value)
    {
      assert part[j] == args[j];
    }
    UnusedFilesNone(part);
    assert ValuesOf(part) == ValuesOf(args)[..skip];
  }

  lemma UnusedFilesNoneAfter(args: seq<Arg>, skip: nat)
    requires skip < |args|
    requires forall j :: 0 <= j < |args| && j != skip && args[j].handled ==> !IsNotOpt(args[j].value)
    ensures UnusedFiles(args[skip + 1..]) == NonOptions(ValuesOf(args)[skip + 1..])
  {
    var part := args[skip + 1..];
    forall j | 0 <= j < |part| && part[j].handled
      ensures !IsNotOpt(part[j].value)
    {
      assert part[j] == args[skip + 1 + j];
    }
    UnusedFilesNone(part);
    assert ValuesOf(part) == ValuesOf(args)[skip + 1..];
  }

  /** When no consumed argument fails to start with '-', the unused files are all the non-option values. */
  lemma {:induction false} UnusedFilesNone(args: seq<Arg>)
    requires forall j :: 0 <= j < |args| && args[j].handled ==> !IsNotOpt(args[j].value)
    ensures UnusedFiles(args) == NonOptions(ValuesOf(args))
    decreases |args|
  {
    if args != [] {
      var init := args[..|args| - 1];
      UnusedFilesNone(init);
      assert ValuesOf(init) == ValuesOf(args)[..|args| - 1];
    }
  }

  /** What `parse_args` decides from the command line. */
  datatype Options = Options(
    fIsSet: bool,
    archiveName: Bytes,
    vIsSet: bool,
    tIsSet: bool,
    xIsSet: bool,
    requested: seq<Bytes>,     // files_from_args
    handleAll: bool)           // handle_all_files

  /**
   * The outcome of `parse_args` on arguments none of which is consumed
   * yet: -f takes the next argument as the archive name when there is one;
   * -v, -t and -x are flags wherever they appear; every other argument that
   * does not start with '-' names a file to act on; and with -t or -x and
   * no such names, every file in the archive is acted on.
   */
  function Parse(values: seq<Bytes>): (o: Options)
    ensures o.fIsSet ==> o.archiveName in values && OptF in values
    ensures o.vIsSet <==> OptV in values
    ensures o.tIsSet <==> OptT in values
    ensures o.xIsSet <==> OptX in values
    ensures forall x :: x in o.requested ==> x in values && IsNotOpt(x)
    ensures o.handleAll <==> (o.tIsSet || o.xIsSet) && o.requested == []
  {
    var fi := OptionIndex(values, OptF);
    var f := fi != NotFound && fi + 1 < |values|;
    var requested := if f then NonOptions(values[..fi + 1]) + NonOptions(values[fi + 2..]) else NonOptions(values);
    var t := OptT in values;
    var x := OptX in values;
    assert f ==> values[fi + 1] in values;
    assert forall y :: y in requested ==> y in values && IsNotOpt(y) by {
      NonOptionsMembers(values);
      if f {
        NonOptionsMembers(values[..fi + 1]);
        NonOptionsMembers(values[fi + 2..]);
      }
    }
    Options(f, if f then values[fi + 1] else [], OptV in values, t, x, requested, (t || x) && requested == [])
  }

  /**
   * The positions `parse_args` marks as consumed: -f and the archive name
   * after it, and the first -v, -t and -x.
   */
  function Consumed(values: seq<Bytes>): (c: set<int>)
    ensures forall k :: k in c ==> 0 <= k < |values|
  {
    var fi := OptionIndex(values, OptF);
    (if fi != NotFound && fi + 1 < |values| then {fi, fi + 1} else {}) +
    ({OptionIndex(values, OptV), OptionIndex(values, OptT), OptionIndex(values, OptX)} - {NotFound})
  }

  /**
   * -f names the archive exactly when its first occurrence has an argument
   * after it, and that argument is the name; every other argument that
   * does not start with '-' is a requested file.
   */
  lemma ParseArchiveAndFiles(values: seq<Bytes>)
    ensures var o, fi := Parse(values), OptionIndex(values, OptF);
      && (o.fIsSet <==> fi != NotFound && fi + 1 < |values|)
      && (o.fIsSet ==> o.archiveName == values[fi + 1])
      && forall i :: 0 <= i < |values| && IsNotOpt(values[i]) && !(o.fIsSet && i == fi + 1) ==>
           values[i] in o.requested
  {
    var o, fi := Parse(values), OptionIndex(values, OptF);
    if o.fIsSet {
      NonOptionsMembers(values[..fi + 1]);
      NonOptionsMembers(values[fi + 2..]);
      forall i | 0 <= i < |values| && IsNotOpt(values[i]) && i != fi + 1
        ensures values[i] in o.requested
      {
        if i <= fi {
          assert values[..fi + 1][i] == values[i];
        } else {
          assert values[fi + 2..][i - (fi + 2)] == values[i];
        }
      }
    } else {
      NonOptionsMembers(values);
    }
  }

  /**
   * The consumed positions are those of the first -f and the argument after
   * it (when there is one), and of the first -v, -t and -x: each holds one of
   * the four options or is the argument after the first -f.
   */
  lemma ConsumedOptions(values: seq<Bytes>)
    ensures var c, fi := Consumed(values), OptionIndex(values, OptF);
      && (fi != NotFound && fi + 1 < |values| ==> fi in c && fi + 1 in c)
      && (OptV in values ==> OptionIndex(values, OptV) in c)
      && (OptT in values ==> OptionIndex(values, OptT) in c)
      && (OptX in values ==> OptionIndex(values, OptX) in c)
      && forall k :: k in c ==> values[k] in {OptF, OptV, OptT, OptX} || (fi != NotFound && k == fi + 1)
  {
    var c, fi := Consumed(values), OptionIndex(values, OptF);
    var iv, it, ix := OptionIndex(values, OptV), OptionIndex(values, OptT), OptionIndex(values, OptX);
    var options := {iv, it, ix} - {NotFound};
    assert c == (if fi != NotFound && fi + 1 < |values| then {fi, fi + 1} else {}) + options;
    forall k | k in c
      ensures values[k] in {OptF, OptV, OptT, OptX} || (fi != NotFound && k == fi + 1)
    {
      if k in options {
        assert values[k] == OptV || values[k] == OptT || values[k] == OptX;
      }
    }
  }

  /** The archive name after -f is never taken for a file to extract or list. */
  lemma ArchiveNameIsNotRequested(values: seq<Bytes>)
    requires Parse(values).fIsSet
    requires forall i, j :: 0 <= i < j < |values| ==> values[i] != values[j]
    ensures Parse(values).archiveName !in Parse(values).requested
  {
    var fi := OptionIndex(values, OptF);
    NonOptionsMembers(values[..fi + 1]);
    NonOptionsMembers(values[fi + 2..]);
  }

  /** `assert_valid_args`: the archive must be named (-f with a name), then an action chosen. */
  function ArgsCheck(o: Options): (c: Check)
    ensures c.Pass? <==> o.fIsSet && (o.tIsSet || o.xIsSet)
    ensures c == Stop(Fatal(ArchiveNotSpecified)) <==> !o.fIsSet
    ensures c == Stop(Fatal(ActionNotSpecified)) <==> o.fIsSet && !o.tIsSet && !o.xIsSet
    ensures c.Stop? ==> c.abort.Fatal?
  {
    if !o.fIsSet then Stop(Fatal(ArchiveNotSpecified))
    else if !o.tIsSet && !o.xIsSet then Stop(Fatal(ActionNotSpecified))
    else Pass
  }
}
