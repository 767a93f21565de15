/**
 * The store's configuration of options.go: the defaults, and NewOptions, which
 * applies a list of functional options in order to zero-valued Options. Each Go
 * closure assigns one field, so it is modelled by a constructor naming that field
 * and the value it assigns.
 */
module DbOptions {
  import opened Common

  /** Dir: where the data files live. MaxSize: the size limit of one data file. */
  datatype Options = Options(dir: string, maxSize: i64, alwaysSync: bool)

  /** 4 MiB, written `4 << 20` in the source. */
  const DefaultDataFileSize: i64 := 4 * 0x10_0000

  function NewDefaultOptions(): (r: Options)
    ensures r.dir == "bit_cask_data_dir" && r.maxSize == 4194304 && !r.alwaysSync
  {
    Options("bit_cask_data_dir", DefaultDataFileSize, false)
  }

  /** What `new(Options)` holds: every field at its zero value. */
  function ZeroOptions(): Options
  {
    Options("", 0, false)
  }

  datatype OptionsFunc =
    | DirOption(dir: string)
    | MaxSizeOption(maxSize: i64)
    | AlwaysSyncOption(alwaysSync: bool)

  /** Calling an option on the options it is given. */
  function Apply(f: OptionsFunc, o: Options): Options
  {
    match f
    case DirOption(d) => o.(dir := d)
    case MaxSizeOption(m) => o.(maxSize := m)
    case AlwaysSyncOption(a) => o.(alwaysSync := a)
  }

  /** The options after applying the list in order, starting from o. */
  function Fold(o: Options, opts: seq<OptionsFunc>): Options
  {
    if opts == [] then o else Apply(opts[|opts| - 1], Fold(o, opts[..|opts| - 1]))
  }

  method NewOptions(opts: seq<OptionsFunc>) returns (res: Options)
    ensures res == Fold(ZeroOptions(), opts)
  {
    res := ZeroOptions();
    for i := 0 to |opts|
      invariant res == Fold(ZeroOptions(), opts[..i])
    {
      assert opts[..i + 1][..i] == opts[..i];
      res := Apply(opts[i], res);
    }
    assert opts[..|opts|] == opts;
  }

  /** The fields of Options, and the value an option stores in its field. */
  datatype Field = Dir | MaxSize | AlwaysSync
  datatype FieldValue = DirValue(d: string) | MaxSizeValue(m: i64) | AlwaysSyncValue(a: bool)

  function Get(o: Options, fld: Field): FieldValue
  {
    match fld
    case Dir => DirValue(o.dir)
    case MaxSize => MaxSizeValue(o.maxSize)
    case AlwaysSync => AlwaysSyncValue(o.alwaysSync)
  }

  predicate Sets(f: OptionsFunc, fld: Field)
  {
    match f
    case DirOption(_) => fld == Dir
    case MaxSizeOption(_) => fld == MaxSize
    case AlwaysSyncOption(_) => fld == AlwaysSync
  }

  function Value(f: OptionsFunc): FieldValue
  {
    match f
    case DirOption(d) => DirValue(d)
    case MaxSizeOption(m) => MaxSizeValue(m)
    case AlwaysSyncOption(a) => AlwaysSyncValue(a)
  }

  /** Each option sets its own field to its value and leaves the other fields as they were. */
  lemma ApplySetsOnlyItsField(f: OptionsFunc, o: Options, fld: Field)
    ensures Get(Apply(f, o), fld) == if Sets(f, fld) then Value(f) else Get(o, fld)
  {
  }

  /** The last option in the list that sets a field decides its value. */
  lemma {:induction false} LastSetterWins(o: Options, opts: seq<OptionsFunc>, fld: Field, i: nat)
    requires i < |opts| && Sets(opts[i], fld)
    requires forall j :: i < j < |opts| ==> !Sets(opts[j], fld)
    ensures Get(Fold(o, opts), fld) == Value(opts[i])
    decreases |opts|
  {
    var last := opts[|opts| - 1];
    ApplySetsOnlyItsField(last, Fold(o, opts[..|opts| - 1]), fld);
    if i < |opts| - 1 {
      var init := opts[..|opts| - 1];
      assert init[i] == opts[i];
      forall j | i < j < |init| ensures !Sets(init[j], fld) {
        assert init[j] == opts[j];
      }
      LastSetterWins(o, init, fld, i);
    }
  }

  /** A field no option in the list sets keeps the value it started with. */
  lemma {:induction false} UnsetFieldKept(o: Options, opts: seq<OptionsFunc>, fld: Field)
    requires forall j :: 0 <= j < |opts| ==> !Sets(opts[j], fld)
    ensures Get(Fold(o, opts), fld) == Get(o, fld)
    decreases |opts|
  {
    if opts != [] {
      var init := opts[..|opts| - 1];
      ApplySetsOnlyItsField(opts[|opts| - 1], Fold(o, init), fld);
      forall j | 0 <= j < |init| ensures !Sets(init[j], fld) {
        assert init[j] == opts[j];
      }
      UnsetFieldKept(o, init, fld);
    }
  }

  /** NewOptions starts from the zero values, not from the defaults. */
  lemma NewOptionsWithoutOptions()
    ensures Fold(ZeroOptions(), []) == Options("", 0, false)
    ensures Fold(ZeroOptions(), []) != NewDefaultOptions()
  {
  }
}
