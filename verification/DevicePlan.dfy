/** Which devices a server loads and which one a request gets (crates/diar-server/src/engines.rs).
    An engine is any value; loading one device either gives an engine or fails. */
module DevicePlan {
  import opened Wrappers
  import opened Text
  import opened DeviceNames

  /** The Cargo features of a build. */
  datatype Build = Build(cuda: bool, coreml: bool)

  const CANONICAL: seq<Device> := [Cuda, CoreMl, CoreMlFast, Cpu]

  datatype DeviceError =
    | Unknown(name: string)
    | NotCompiledIn(device: Device)
    | NotLoaded(requested: Device, loaded: seq<Device>)

  predicate CompiledIn(b: Build, d: Device) {
    match d
    case Cpu => true
    case Cuda => b.cuda
    case CoreMl | CoreMlFast => b.coreml
  }

  function FindNamed(ds: seq<Device>, name: string): (r: Option<Device>)
    ensures r.Some? ==> Name(r.value) == name
    ensures r.None? ==> forall d <- ds :: Name(d) != name
  {
    if ds == [] then None
    else if Name(ds[0]) == name then Some(ds[0])
    else FindNamed(ds[1..], name)
  }

  /** `None` only for what is no device name at all. */
  function FromName(name: string): (r: Option<Device>)
    ensures r.Some? ==> Name(r.value) == name
    ensures r.None? ==> forall d: Device :: Name(d) != name
  {
    assert CANONICAL[0] == Cuda && CANONICAL[1] == CoreMl && CANONICAL[2] == CoreMlFast && CANONICAL[3] == Cpu;
    FindNamed(CANONICAL, name)
  }

  function Parse(b: Build, name: string): Result<Device, DeviceError> {
    match FromName(name)
    case None => Err(Unknown(name))
    case Some(d) => if CompiledIn(b, d) then Ok(d) else Err(NotCompiledIn(d))
  }

  lemma NamesAreDistinct(d: Device, e: Device)
    ensures Name(d) == Name(e) <==> d == e
  {
    assert Name(d)[1] == Name(e)[1] && |Name(d)| == |Name(e)| ==> d == e;
  }

  /** A name parses to exactly the device of that name, and only in a build that serves it. */
  lemma ParseExactlyWhen(b: Build, name: string, d: Device)
    ensures Parse(b, name) == Ok(d) <==> name == Name(d) && CompiledIn(b, d)
  {
    if name == Name(d) {
      NamesAreDistinct(d, FromName(name).value);
    }
  }

  /** The names of the four devices, and in which builds each is served. */
  lemma DevicesAre(b: Build)
    ensures FromName("cpu") == Some(Cpu) && FromName("cuda") == Some(Cuda)
    ensures FromName("coreml") == Some(CoreMl) && FromName("coreml_fast") == Some(CoreMlFast)
    ensures Parse(b, "cpu").Ok? && (Parse(b, "cuda").Ok? <==> b.cuda)
    ensures (Parse(b, "coreml").Ok? <==> b.coreml) && (Parse(b, "coreml_fast").Ok? <==> b.coreml)
  {
    NamesAreDistinct(FromName("cpu").value, Cpu);
    NamesAreDistinct(FromName("cuda").value, Cuda);
    NamesAreDistinct(FromName("coreml").value, CoreMl);
    NamesAreDistinct(FromName("coreml_fast").value, CoreMlFast);
  }

  /** A name that is no device's is unknown; a device's name is refused for the build only. */
  lemma ParseErrorExactlyWhen(b: Build, name: string, e: DeviceError)
    ensures Parse(b, name) == Err(e) <==>
            || (e == Unknown(name) && forall d: Device :: Name(d) != name)
            || (e.NotCompiledIn? && name == Name(e.device) && !CompiledIn(b, e.device))
  {
    if e.NotCompiledIn? && name == Name(e.device) {
      NamesAreDistinct(e.device, FromName(name).value);
    }
  }

  // ---------------------------------------------------------------- the plan

  /** The non-blank pieces of a comma-separated list, trimmed. */
  function Names(pieces: seq<string>): seq<string> {
    if pieces == [] then []
    else Names(pieces[..|pieces| - 1]) + (var t := Trim(pieces[|pieces| - 1]); if t == "" then [] else [t])
  }

  /** All devices named, or the error of the first name that is none. */
  function ParseAll(b: Build, names: seq<string>): Result<seq<Device>, DeviceError> {
    if names == [] then Ok([])
    else
      match ParseAll(b, names[..|names| - 1])
      case Err(e) => Err(e)
      case Ok(ds) =>
        match Parse(b, names[|names| - 1])
        case Err(e) => Err(e)
        case Ok(d) => Ok(ds + [d])
  }

  /** Each device at its first occurrence. */
  function FirstOccurrences(ds: seq<Device>): seq<Device> {
    if ds == [] then []
    else
      var rest := FirstOccurrences(ds[..|ds| - 1]);
      if ds[|ds| - 1] in rest then rest else rest + [ds[|ds| - 1]]
  }

  function DeviceFromMode(mode: Option<string>): Device {
    if mode == Some("cpu") then Cpu
    else if mode == Some("coreml") then CoreMl
    else if mode == Some("coreml_fast") then CoreMlFast
    else Cuda
  }

  function PlanFromMode(b: Build, mode: Option<string>): Result<seq<Device>, DeviceError> {
    if CompiledIn(b, DeviceFromMode(mode)) then Ok([DeviceFromMode(mode)]) else Err(NotCompiledIn(DeviceFromMode(mode)))
  }

  /** `DIAR_DEVICES` wins unless it names nothing; then `DIAR_MODE` gives the one device. */
  function Plan(b: Build, devices: Option<string>, mode: Option<string>): Result<seq<Device>, DeviceError> {
    if devices.None? || Names(Split(devices.value, ',')) == [] then PlanFromMode(b, mode)
    else
      match ParseAll(b, Names(Split(devices.value, ',')))
      case Err(e) => Err(e)
      case Ok(ds) => Ok(FirstOccurrences(ds))
  }

  method PlanNames(b: Build, names: seq<string>) returns (planned: Result<seq<Device>, DeviceError>)
    ensures var parsed := ParseAll(b, names);
            planned == if parsed.Ok? then Ok(FirstOccurrences(parsed.value)) else Err(parsed.error)
  {
    var ds: seq<Device> := [];
    ghost var parsed: seq<Device> := [];
    for i := 0 to |names|
      invariant ParseAll(b, names[..i]) == Ok(parsed) && ds == FirstOccurrences(parsed)
    {
      Prefixes(names, i);
      ParseAllSnoc(b, names[..i], names[i]);
      var d := Parse(b, names[i]);
      if d.Err? {
        ErrorStays(b, names, i + 1, d.error);
        return Err(d.error);
      }
      FirstSnoc(parsed, d.value);
      parsed := parsed + [d.value];
      if d.value !in ds {
        ds := ds + [d.value];
      }
    }
    Prefixes(names, |names|);
    planned := Ok(ds);
  }

  lemma Prefixes<T>(s: seq<T>, i: nat)
    requires i <= |s|
    ensures i < |s| ==> s[..i + 1] == s[..i] + [s[i]]
    ensures s[..|s|] == s
  {
  }

  lemma ParseAllSnoc(b: Build, names: seq<string>, name: string)
    ensures ParseAll(b, names + [name]) ==
            match ParseAll(b, names)
            case Err(e) => Err(e)
            case Ok(ds) => match Parse(b, name) case Err(e) => Err(e) case Ok(d) => Ok(ds + [d])
  {
    assert (names + [name])[..|names|] == names;
  }

  lemma FirstSnoc(ds: seq<Device>, d: Device)
    ensures FirstOccurrences(ds + [d]) == if d in FirstOccurrences(ds) then FirstOccurrences(ds) else FirstOccurrences(ds) + [d]
  {
    assert (ds + [d])[..|ds|] == ds;
  }

  /** The first bad name decides: later names do not change the error. */
  lemma {:induction false} ErrorStays(b: Build, names: seq<string>, i: nat, e: DeviceError)
    requires i <= |names| && ParseAll(b, names[..i]) == Err(e)
    ensures ParseAll(b, names) == Err(e)
    decreases |names|
  {
    Prefixes(names, i);
    if i < |names| {
      var rest := names[..|names| - 1];
      assert rest[..i] == names[..i];
      ErrorStays(b, rest, i, e);
    }
  }

  method PlanDevices(b: Build, devices: Option<string>, mode: Option<string>) returns (planned: Result<seq<Device>, DeviceError>)
    ensures planned == Plan(b, devices, mode)
  {
    if devices.Some? {
      planned := PlanNames(b, Names(Split(devices.value, ',')));
      NothingNamed(b, Names(Split(devices.value, ',')));
      if planned.Err? || planned.value != [] {
        return;
      }
    }
    var d := DeviceFromMode(mode);
    NamesAreDistinct(d, d);
    ParseExactlyWhen(b, Name(d), d);
    var parsed := Parse(b, Name(d));
    planned := if parsed.Err? then Err(parsed.error) else Ok([d]);
  }

  lemma {:induction false} NothingNamed(b: Build, names: seq<string>)
    ensures ParseAll(b, names).Ok? ==>
              |ParseAll(b, names).value| == |names| && (FirstOccurrences(ParseAll(b, names).value) == [] <==> names == [])
  {
    if names != [] {
      NothingNamed(b, names[..|names| - 1]);
    }
  }

  // ---------------------------------------------------------------- which knob decides

  /** `DIAR_MODE` names a device, and anything else, or nothing, means `cuda`. */
  lemma DeviceFromModeIs(mode: Option<string>, d: Device)
    ensures DeviceFromMode(Some(Name(d))) == d
    ensures mode.None? || (forall x: Device :: mode.value != Name(x)) ==> DeviceFromMode(mode) == Cuda
  {
    NamesAreDistinct(d, Cpu);
    NamesAreDistinct(d, CoreMl);
    NamesAreDistinct(d, CoreMlFast);
    assert Name(Cpu) == "cpu" && Name(CoreMl) == "coreml" && Name(CoreMlFast) == "coreml_fast";
  }

  lemma {:induction false} NamesAreNoneExactlyWhen(pieces: seq<string>)
    ensures Names(pieces) == [] <==> AllBlank(pieces)
  {
    if pieces != [] {
      NamesAreNoneExactlyWhen(pieces[..|pieces| - 1]);
      TrimIsEmptyExactlyWhen(pieces[|pieces| - 1]);
    }
  }

  /** Nothing but commas and whitespace. */
  predicate NamesNothing(list: string) {
    forall i :: 0 <= i < |list| ==> list[i] == ',' || IsWhitespace(list[i])
  }

  ghost predicate AllBlank(pieces: seq<string>) {
    forall i :: 0 <= i < |pieces| ==> AllWhitespace(pieces[i])
  }

  lemma WhitespaceCons(c: char, s: string)
    ensures AllWhitespace([c] + s) <==> IsWhitespace(c) && AllWhitespace(s)
  {
    var t := [c] + s;
    assert t[0] == c && forall i :: 0 <= i < |s| ==> t[i + 1] == s[i];
  }

  lemma AllBlankCons(piece: string, pieces: seq<string>)
    ensures AllBlank([piece] + pieces) <==> AllWhitespace(piece) && AllBlank(pieces)
  {
    var all := [piece] + pieces;
    assert all[0] == piece && forall i :: 0 <= i < |pieces| ==> all[i + 1] == pieces[i];
  }

  lemma NamesNothingCons(c: char, list: string)
    ensures NamesNothing([c] + list) <==> (c == ',' || IsWhitespace(c)) && NamesNothing(list)
  {
    var t := [c] + list;
    assert t[0] == c && forall i :: 0 <= i < |list| ==> t[i + 1] == list[i];
  }

  lemma {:induction false} BlankPiecesExactlyWhen(list: string)
    ensures AllBlank(Split(list, ',')) <==> NamesNothing(list)
  {
    if list != "" {
      var rest := Split(list[1..], ',');
      BlankPiecesExactlyWhen(list[1..]);
      NamesNothingCons(list[0], list[1..]);
      assert list == [list[0]] + list[1..] && rest == [rest[0]] + rest[1..];
      if list[0] == ',' {
        AllBlankCons("", rest);
      } else {
        WhitespaceCons(list[0], rest[0]);
        AllBlankCons([list[0]] + rest[0], rest[1..]);
        AllBlankCons(rest[0], rest[1..]);
      }
    }
  }

  /** MAIN RESULT. `DIAR_MODE` decides exactly when `DIAR_DEVICES` is unset or nothing but commas and
      whitespace; else it has no part in the plan. */
  lemma ModeDecidesExactlyWhen(b: Build, devices: Option<string>, mode: Option<string>, other: Option<string>)
    ensures devices.None? || NamesNothing(devices.value) ==>
              var d := DeviceFromMode(mode);
              Plan(b, devices, mode) == if CompiledIn(b, d) then Ok([d]) else Err(NotCompiledIn(d))
    ensures devices.Some? && !NamesNothing(devices.value) ==> Plan(b, devices, mode) == Plan(b, devices, other)
  {
    if devices.Some? {
      NamesAreNoneExactlyWhen(Split(devices.value, ','));
      BlankPiecesExactlyWhen(devices.value);
    }
  }

  /** Every name in the list must be that of a served device; the first that is not decides. */
  lemma {:induction false} ParseAllExactlyWhen(b: Build, names: seq<string>, e: DeviceError)
    ensures ParseAll(b, names).Ok? <==> AllParse(b, names)
    ensures ParseAll(b, names) == Err(e) <==> exists i :: 0 <= i < |names| && Parse(b, names[i]) == Err(e) && AllParse(b, names[..i])
  {
    if names != [] {
      var rest, k := names[..|names| - 1], |names| - 1;
      ParseAllExactlyWhen(b, rest, e);
      assert names == rest + [names[k]] && names[..k] == rest;
      assert forall i :: 0 <= i < k ==> names[..i] == rest[..i] && names[i] == rest[i];
    }
  }

  ghost predicate AllParse(b: Build, names: seq<string>) {
    forall i :: 0 <= i < |names| ==> Parse(b, names[i]).Ok?
  }

  lemma {:induction false} ParsedInOrder(b: Build, names: seq<string>)
    requires ParseAll(b, names).Ok?
    ensures |ParseAll(b, names).value| == |names|
    ensures forall i :: 0 <= i < |names| ==> Parse(b, names[i]) == Ok(ParseAll(b, names).value[i])
  {
    if names != [] {
      ParsedInOrder(b, names[..|names| - 1]);
    }
  }

  // ---------------------------------------------------------------- what a plan is

  predicate NoRepeats(ds: seq<Device>) {
    forall i, j :: 0 <= i < j < |ds| ==> ds[i] != ds[j]
  }

  /** No device twice, none lost, none new, and the first stays first. */
  lemma {:induction false} FirstOccurrencesKeep(ds: seq<Device>)
    ensures NoRepeats(FirstOccurrences(ds))
    ensures forall d :: d in FirstOccurrences(ds) <==> d in ds
    ensures ds != [] ==> FirstOccurrences(ds) != [] && FirstOccurrences(ds)[0] == ds[0]
  {
    if ds != [] {
      var rest, last := ds[..|ds| - 1], ds[|ds| - 1];
      FirstOccurrencesKeep(rest);
      assert ds == rest + [last];
    }
  }

  /** Where `d` first is. */
  function FirstAt(ds: seq<Device>, d: Device): (k: nat)
    ensures d in ds ==> k < |ds| && ds[k] == d && d !in ds[..k]
  {
    if ds == [] then 0
    else if d in ds[..|ds| - 1] then
      var k := FirstAt(ds[..|ds| - 1], d);
      assert ds[..|ds| - 1][..k] == ds[..k];
      k
    else |ds| - 1
  }

  /** Devices keep the order of their first mentions. */
  lemma {:induction false} FirstOccurrencesOrder(ds: seq<Device>, i: nat, j: nat)
    requires i < j < |FirstOccurrences(ds)|
    ensures FirstAt(ds, FirstOccurrences(ds)[i]) < FirstAt(ds, FirstOccurrences(ds)[j])
  {
    var rest, last := ds[..|ds| - 1], ds[|ds| - 1];
    FirstOccurrencesKeep(rest);
    assert FirstOccurrences(ds)[i] == FirstOccurrences(rest)[i] && FirstOccurrences(rest)[i] in rest;
    if j < |FirstOccurrences(rest)| {
      assert FirstOccurrences(ds)[j] == FirstOccurrences(rest)[j] && FirstOccurrences(rest)[j] in rest;
      FirstOccurrencesOrder(rest, i, j);
    }
  }

  lemma {:induction false} ParsedAreServed(b: Build, names: seq<string>)
    ensures ParseAll(b, names).Ok? ==>
              var ds := ParseAll(b, names).value;
              |ds| == |names| && forall i :: 0 <= i < |ds| ==> CompiledIn(b, ds[i]) && Name(ds[i]) == names[i]
  {
    if names != [] {
      ParsedAreServed(b, names[..|names| - 1]);
      var last := names[|names| - 1];
      if FromName(last).Some? {
        ParseExactlyWhen(b, last, FromName(last).value);
      }
    }
  }

  /** A plan is never empty, names no device twice and only devices of this build. */
  lemma PlanIsUsable(b: Build, devices: Option<string>, mode: Option<string>)
    requires Plan(b, devices, mode).Ok?
    ensures var ds := Plan(b, devices, mode).value;
            ds != [] && NoRepeats(ds) && forall d <- ds :: CompiledIn(b, d)
  {
    if devices.Some? && Names(Split(devices.value, ',')) != [] {
      var names := Names(Split(devices.value, ','));
      ParsedAreServed(b, names);
      FirstOccurrencesKeep(ParseAll(b, names).value);
    }
  }

  // ---------------------------------------------------------------- the list round trip

  /** The list as the server prints it. */
  function Join(ds: seq<Device>): string
    requires ds != []
  {
    if |ds| == 1 then Name(ds[0]) else Name(ds[0]) + ", " + Join(ds[1..])
  }

  function NamesOf(ds: seq<Device>): seq<string> {
    seq(|ds|, i requires 0 <= i < |ds| => Name(ds[i]))
  }

  lemma NameIsPlain(d: Device)
    ensures ',' !in Name(d) && ',' !in " " + Name(d) && Name(d) != ""
    ensures Trim(Name(d)) == Name(d) && Trim(" " + Name(d)) == Name(d)
  {
    TrimUnchanged(Name(d));
  }

  lemma {:induction false} NamesCons(piece: string, pieces: seq<string>)
    ensures Names([piece] + pieces) == Names([piece]) + Names(pieces)
  {
    if pieces == [] {
      assert [piece] + pieces == [piece];
    } else {
      var rest, last := pieces[..|pieces| - 1], pieces[|pieces| - 1];
      NamesCons(piece, rest);
      NamesSnoc([piece] + rest, last);
      NamesSnoc(rest, last);
      assert [piece] + pieces == [piece] + rest + [last] && pieces == rest + [last];
    }
  }

  lemma NamesSnoc(pieces: seq<string>, last: string)
    ensures Names(pieces + [last]) == Names(pieces) + if Trim(last) == "" then [] else [Trim(last)]
  {
    assert (pieces + [last])[..|pieces|] == pieces;
  }

  lemma OneName(piece: string, d: Device)
    requires Trim(piece) == Name(d)
    ensures Names([piece]) == [Name(d)]
  {
    NameIsPlain(d);
    assert [piece][..0] == [];
  }

  lemma SplitPiece(piece: string, d: Device, rest: string)
    requires Trim(piece) == Name(d) && ',' !in piece
    ensures Names(Split(piece + [','] + rest, ',')) == [Name(d)] + Names(Split(rest, ','))
    ensures Names(Split(piece, ',')) == [Name(d)]
  {
    OneName(piece, d);
    SplitNone(piece, ',');
    SplitFirst(piece, ',', rest);
    NamesCons(piece, Split(rest, ','));
  }

  lemma NamesOfFirst(ds: seq<Device>)
    requires ds != []
    ensures NamesOf(ds) == [Name(ds[0])] + NamesOf(ds[1..])
  {
  }

  lemma {:induction false} SplitJoin(lead: string, ds: seq<Device>)
    requires ds != [] && (lead == "" || lead == " ")
    ensures Names(Split(lead + Join(ds), ',')) == NamesOf(ds)
    decreases |ds|
  {
    NameIsPlain(ds[0]);
    assert "" + Name(ds[0]) == Name(ds[0]);
    NamesOfFirst(ds);
    SplitPiece(lead + Name(ds[0]), ds[0], if |ds| == 1 then "" else " " + Join(ds[1..]));
    if |ds| > 1 {
      SplitJoin(" ", ds[1..]);
      Regroup(lead, Name(ds[0]), Join(ds[1..]));
    }
  }

  lemma Regroup(a: string, b: string, c: string)
    ensures a + (b + ", " + c) == a + b + [','] + (" " + c)
  {
    assert ", " == [','] + " ";
  }

  lemma {:induction false} ParseNames(b: Build, ds: seq<Device>)
    requires forall d <- ds :: CompiledIn(b, d)
    ensures ParseAll(b, NamesOf(ds)) == Ok(ds)
  {
    if ds != [] {
      var rest, last := ds[..|ds| - 1], ds[|ds| - 1];
      assert NamesOf(ds) == NamesOf(rest) + [Name(last)];
      assert ds == rest + [last];
      ParseAllSnoc(b, NamesOf(rest), Name(last));
      assert last in ds && forall d <- rest :: d in ds;
      ParseNames(b, rest);
      ParseExactlyWhen(b, Name(last), last);
    }
  }

  lemma {:induction false} FirstOccurrencesOfDistinct(ds: seq<Device>)
    requires NoRepeats(ds)
    ensures FirstOccurrences(ds) == ds
  {
    if ds != [] {
      FirstOccurrencesOfDistinct(ds[..|ds| - 1]);
    }
  }

  /** MAIN RESULT. The list the server prints of its devices plans exactly those devices again, in
      that order, whatever `DIAR_MODE` is. */
  lemma PlanInvertsJoin(b: Build, ds: seq<Device>, mode: Option<string>)
    requires ds != [] && NoRepeats(ds) && forall d <- ds :: CompiledIn(b, d)
    ensures Plan(b, Some(Join(ds)), mode) == Ok(ds)
  {
    SplitJoin("", ds);
    assert "" + Join(ds) == Join(ds);
    ParseNames(b, ds);
    FirstOccurrencesOfDistinct(ds);
    assert |NamesOf(ds)| > 0;
  }

  // ---------------------------------------------------------------- the registry

  datatype Registry<E> = Registry(default: Device, engines: seq<(Device, E)>)

  datatype LoadError = NoDevices | CannotLoad(device: Device)

  function Devices<E>(r: Registry<E>): seq<Device> {
    seq(|r.engines|, i requires 0 <= i < |r.engines| => r.engines[i].0)
  }

  /** Loads in order; the first device that fails stops the load. */
  method Load<E>(devices: seq<Device>, loadOne: Device -> Option<E>) returns (r: Result<Registry<E>, LoadError>)
    ensures r.Ok? <==> devices != [] && forall d <- devices :: loadOne(d).Some?
    ensures r.Ok? ==>
              && r.value.default == devices[0]
              && |r.value.engines| == |devices|
              && forall i :: 0 <= i < |devices| ==>
                   r.value.engines[i].0 == devices[i] && Some(r.value.engines[i].1) == loadOne(devices[i])
    ensures r.Err? ==> match r.error
              case NoDevices => devices == []
              case CannotLoad(d) => exists i :: 0 <= i < |devices| && devices[i] == d && loadOne(d).None?
                                       && forall j :: 0 <= j < i ==> loadOne(devices[j]).Some?
  {
    if devices == [] {
      return Err(NoDevices);
    }
    var engines: seq<(Device, E)> := [];
    for i := 0 to |devices|
      invariant |engines| == i
      invariant forall j :: 0 <= j < i ==> engines[j].0 == devices[j] && Some(engines[j].1) == loadOne(devices[j])
    {
      var engine := loadOne(devices[i]);
      if engine.None? {
        return Err(CannotLoad(devices[i]));
      }
      engines := engines + [(devices[i], engine.value)];
    }
    r := Ok(Registry(devices[0], engines));
  }

  function Resolve<E>(b: Build, r: Registry<E>, requested: Option<string>): Result<Device, DeviceError> {
    match requested
    case None => Ok(r.default)
    case Some(name) =>
      match Parse(b, name)
      case Err(e) => Err(e)
      case Ok(d) => if d in Devices(r) then Ok(d) else Err(NotLoaded(d, Devices(r)))
  }

  /** Why a request for a device fails: no such device, not of this build, or not loaded. */
  lemma ResolveErrorExactlyWhen<E>(b: Build, r: Registry<E>, name: string, e: DeviceError)
    ensures Resolve(b, r, Some(name)) == Err(e) <==>
            || (e == Unknown(name) && forall d: Device :: Name(d) != name)
            || (e.NotCompiledIn? && name == Name(e.device) && !CompiledIn(b, e.device))
            || (e.NotLoaded? && name == Name(e.requested) && CompiledIn(b, e.requested) && e.requested !in Devices(r)
                && e.loaded == Devices(r))
  {
    ParseErrorExactlyWhen(b, name, e);
    if e.NotLoaded? {
      ParseExactlyWhen(b, name, e.requested);
    }
  }

  function Engine<E>(engines: seq<(Device, E)>, d: Device): Option<E> {
    if engines == [] then None
    else if engines[0].0 == d then Some(engines[0].1)
    else Engine(engines[1..], d)
  }

  lemma {:induction false} EngineFound<E>(engines: seq<(Device, E)>, d: Device)
    ensures Engine(engines, d).Some? <==> exists i :: 0 <= i < |engines| && engines[i].0 == d
    ensures Engine(engines, d).Some? ==> exists i :: 0 <= i < |engines| && engines[i] == (d, Engine(engines, d).value)
  {
    if engines != [] {
      EngineFound(engines[1..], d);
      if engines[0].0 == d {
        assert engines[0] == (d, Engine(engines, d).value);
      } else {
        forall i | 0 <= i < |engines[1..]|
          ensures engines[1..][i] == engines[i + 1]
        {
        }
      }
    }
  }

  /** MAIN RESULT. Over a registry loaded from a plan: no name gives the first planned device, a
      name resolves exactly when it is the name of a planned device, and whatever resolves has an
      engine, the one that loading that device gave. */
  lemma ResolvedHasItsEngine<E>(b: Build, devices: Option<string>, mode: Option<string>, r: Registry<E>,
                                loadOne: Device -> Option<E>, requested: Option<string>, d: Device)
    requires Plan(b, devices, mode).Ok?
    requires var ds := Plan(b, devices, mode).value;
             && |r.engines| == |ds| && (ds != [] ==> r.default == ds[0])
             && forall i :: 0 <= i < |ds| ==> r.engines[i].0 == ds[i] && Some(r.engines[i].1) == loadOne(ds[i])
    ensures Resolve(b, r, None) == Ok(Plan(b, devices, mode).value[0])
    ensures requested.Some? ==>
              (Resolve(b, r, requested) == Ok(d) <==> requested.value == Name(d) && d in Plan(b, devices, mode).value)
    ensures Resolve(b, r, requested) == Ok(d) ==> Engine(r.engines, d).Some? && Engine(r.engines, d) == loadOne(d)
  {
    var ds := Plan(b, devices, mode).value;
    PlanIsUsable(b, devices, mode);
    assert Devices(r) == ds;
    EngineFound(r.engines, d);
    if requested.Some? {
      ParseExactlyWhen(b, requested.value, d);
    }
  }
}
