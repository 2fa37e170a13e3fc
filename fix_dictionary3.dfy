/**
 * FIX_Benchmark/FixDictionary_3.cs: `FixDictionaryBase_3` (a second decoder
 * with `TryParse`-based accessors) and `FixDictionary_3`.
 *
 * The loop of `FixDictionaryBase_3.Parse` is described one pass at a time by
 * `Step`.  A segment without `=` hits `continue` before anything is consumed,
 * so the pass leaves the loop state exactly as it found it and the loop
 * never ends; `Run3` reports that as `Spins`.  `FixDictionary_3` derives
 * from `FixDictionaryBase`, so its constructor runs the first decoder and
 * reads through the first family of accessors.
 */
module FixDictionary3 {
  import opened Wrappers
  import opened DotNet
  import opened FixMessage
  import FixDictionary

  // ---------------------------------------------------------------------
  // The decoder, one loop pass at a time

  /** The loop state of `Parse`: the unread input and the message written so far. */
  datatype Config = Config(rest: string, msg: Message)

  /** What one pass of the loop body does: loops again from a state, leaves the loop, or throws. */
  datatype Transition = Next(next: Config) | Exit | Throw(error: Exception)

  /** How a call of `FixDictionaryBase_3.Parse` ends. */
  datatype Outcome = Completed(msg: Message) | Threw(error: Exception) | Spins

  /** The first segment of `s` has no `=`: the pass over it changes nothing. */
  predicate StuckAt(s: string)
  {
    IndexOf(s, SOH) != -1 && EQUALS !in s[..IndexOf(s, SOH)]
  }

  /**
   * One pass of the loop body: no SOH left (or no input) breaks out; a
   * segment without `=` continues without consuming it; a tag that is not an
   * Int32 throws; otherwise the field is routed and its segment consumed.
   */
  function Step(c: Config): Transition
  {
    if |c.rest| == 0 then Exit
    else
      var splitterIndex := IndexOf(c.rest, SOH);
      if splitterIndex == -1 then Exit
      else
        var leftPart := c.rest[..splitterIndex];
        if IndexOf(leftPart, EQUALS) == -1 then Next(c)
        else
          match SplitField(leftPart)
          case Err(e) => Throw(e)
          case Ok(f) => Next(Config(c.rest[splitterIndex + 1..], Route(c.msg, f)))
  }

  /**
   * A pass leaves the loop exactly when no SOH is left; it returns the state
   * it started from exactly on a segment without `=`, and otherwise consumes
   * that segment and its SOH; a pass that throws never throws
   * `ArgumentOutOfRange`.
   */
  lemma StepFacts(c: Config)
    ensures Step(c) == Exit <==> SOH !in c.rest
    ensures Step(c) == Next(c) <==> StuckAt(c.rest)
    ensures Step(c).Next? && Step(c).next != c ==> |Step(c).next.rest| == |c.rest| - IndexOf(c.rest, SOH) - 1
    ensures Step(c).Next? && Step(c).next != c ==>
              Step(c).next == Config(c.rest[IndexOf(c.rest, SOH) + 1..], Route(c.msg, SplitField(c.rest[..IndexOf(c.rest, SOH)]).value))
    ensures Step(c).Throw? ==> Step(c).error != ArgumentOutOfRange
  {
  }

  /**
   * The whole loop: passes are repeated while they consume input; a pass
   * that returns the state it started from would be repeated forever.
   */
  function Run3(c: Config): (o: Outcome)
    decreases |c.rest|
  {
    match Step(c)
    case Exit => Completed(c.msg)
    case Throw(e) => Threw(e)
    case Next(c') => if |c'.rest| < |c.rest| then Run3(c') else Spins
  }

  /**
   * The whole loop never throws `ArgumentOutOfRange` (a segment without `=`
   * is skipped by `continue` instead), and it completes with the message it
   * started from when no SOH is left.
   */
  lemma {:induction false} Run3Facts(c: Config)
    ensures Run3(c).Threw? ==> Run3(c).error != ArgumentOutOfRange
    ensures SOH !in c.rest ==> Run3(c) == Completed(c.msg)
    decreases |c.rest|
  {
    StepFacts(c);
    match Step(c)
    case Exit =>
    case Throw(_) =>
    case Next(c') =>
      if |c'.rest| < |c.rest| {
        Run3Facts(c');
      }
  }

  /** The loop on `rest` whose first segment ends at `i`, unfolded by one pass. */
  lemma Run3FirstSegment(rest: string, msg: Message, i: int)
    requires i == IndexOf(rest, SOH)
    ensures i == -1 ==> Run3(Config(rest, msg)) == Completed(msg)
    ensures i != -1 && EQUALS !in rest[..i] ==> Run3(Config(rest, msg)) == Spins
    ensures i != -1 && SplitField(rest[..i]).Err? && EQUALS in rest[..i] ==> Run3(Config(rest, msg)) == Threw(SplitField(rest[..i]).error)
    ensures i != -1 && SplitField(rest[..i]).Ok? ==> Run3(Config(rest, msg)) == Run3(Config(rest[i + 1..], Route(msg, SplitField(rest[..i]).value)))
  {
    var c := Config(rest, msg);
    if i == -1 {
      assert Step(c) == Exit;
      return;
    }
    var leftPart := rest[..i];
    if EQUALS !in leftPart {
      assert Step(c) == Next(c);
    } else {
      match SplitField(leftPart)
      case Err(e) =>
        assert Step(c) == Throw(e);
      case Ok(f) =>
        assert Step(c) == Next(Config(rest[i + 1..], Route(msg, f)));
    }
  }

  /** Running the loop on `s` from the message `m`. */
  function Decode3(m: Message, s: string): Outcome
  {
    Run3(Config(s, m))
  }

  /**
   * The two decoders agree except on a segment without `=`: where the first
   * throws `ArgumentOutOfRange` the second never returns; every other error
   * and every decoded message are the same.
   */
  lemma {:induction false} VariantsCompared(m: Message, s: string)
    ensures FixDictionary.Run(m, Segments(s)).Ok? ==> Decode3(m, s) == Completed(FixDictionary.Run(m, Segments(s)).value)
    ensures FixDictionary.Run(m, Segments(s)) == Err(ArgumentOutOfRange) <==> Decode3(m, s) == Spins
    ensures FixDictionary.Run(m, Segments(s)).Err? && FixDictionary.Run(m, Segments(s)).error != ArgumentOutOfRange
            ==> Decode3(m, s) == Threw(FixDictionary.Run(m, Segments(s)).error)
    decreases |s|
  {
    var i := IndexOf(s, SOH);
    if i == -1 {
      assert Segments(s) == [];
      assert Step(Config(s, m)) == Exit;
    } else {
      FixDictionary.RunFirstSegment(m, s, i);
      Run3FirstSegment(s, m, i);
      match SplitField(s[..i])
      case Err(e) =>
      case Ok(f) => VariantsCompared(Route(m, f), s[i + 1..]);
    }
  }

  /** A message the first decoder accepts is decoded to the same message by the second. */
  lemma SameMessages(s: string)
    requires FixDictionary.Decode(s).Ok?
    ensures Decode3(Empty, s) == Completed(FixDictionary.Decode(s).value)
  {
    VariantsCompared(Empty, s);
  }

  // ---------------------------------------------------------------------
  // The objects

  /** How the method `Parse` returns: normally, by an exception, or standing in for the endless loop. */
  datatype Ending = Returned | Raised(error: Exception) | Hangs

  /** How one pass of the loop body ends: the loop goes on after the consumed segment, breaks, is stuck, or throws. */
  datatype PassEnd = Consumed(rest: string) | Break | Stuck | Raise(error: Exception)

  /** `FixDictionaryBase_3`: one container of fields. */
  class FixDictionaryBase3 {
    var dict: Container

    constructor ()
      ensures dict == map[]
    {
      dict := map[];
    }

    /** `dictionary[key] = value`. */
    method Put(key: int, value: string)
      modifies this
      ensures dict == old(dict)[key := value]
    {
      dict := dict[key := value];
    }

    /** This container holds the top level of `m` and `groups` hold its group containers, in order. */
    ghost predicate Stores(m: Message, groups: seq<FixDictionaryBase3>)
      reads this, groups
    {
      && dict == m.top
      && |groups| == |m.groups|
      && forall i :: 0 <= i < |groups| ==> groups[i].dict == m.groups[i]
    }

    /**
     * The key-value pair of a segment known to hold `=` at `equalIndex`: the
     * tag is read with `int.Parse`, the value is the rest of the segment.
     */
    static method ReadTagged(leftPart: string, equalIndex: int) returns (r: Result<Field, Exception>)
      requires equalIndex == IndexOf(leftPart, EQUALS) && equalIndex != -1
      ensures r == SplitField(leftPart)
      ensures r.Err? ==> r.error != ArgumentOutOfRange
    {
      match ParseOrThrow(ParseInt32(leftPart[..equalIndex])) {
        case Err(e) =>
          return Err(e);
        case Ok(key) =>
          var value := leftPart[equalIndex + 1..];
          return Ok(Field(key, value));
      }
    }

    /**
     * The write step of `Parse` on the top-level container `this`: tag 83
     * opens a fresh group container and makes it current; the checksum, and
     * every field while no group is current, goes to `this`, the rest to the
     * current group.
     */
    method Store(ghost m: Message, f: Field, groups: seq<FixDictionaryBase3>, currentGroup: FixDictionaryBase3?)
      returns (groups': seq<FixDictionaryBase3>, currentGroup': FixDictionaryBase3?)
      requires currentGroup == null <==> |groups| == 0
      requires currentGroup != null ==> currentGroup == groups[|groups| - 1]
      requires this !in groups
      requires forall i, j :: 0 <= i < j < |groups| ==> groups[i] != groups[j]
      requires Stores(m, groups)
      modifies this, currentGroup
      ensures f.tag == RPT_SEQ ==> fresh(currentGroup') && groups' == groups + [currentGroup']
      ensures f.tag != RPT_SEQ ==> groups' == groups && currentGroup' == currentGroup
      ensures currentGroup' == null <==> |groups'| == 0
      ensures currentGroup' != null ==> currentGroup' == groups'[|groups'| - 1]
      ensures this !in groups'
      ensures forall i, j :: 0 <= i < j < |groups'| ==> groups'[i] != groups'[j]
      ensures Stores(Route(m, f), groups')
    {
      groups', currentGroup' := groups, currentGroup;
      ghost var withGroup := m;
      if f.tag == RPT_SEQ {
        currentGroup' := new FixDictionaryBase3();
        groups' := groups + [currentGroup'];
        withGroup := m.(groups := m.groups + [map[]]);
      }
      assert Stores(withGroup, groups');
      var isChecksum := f.tag == CHECK_SUM;
      var currentDict := if isChecksum then this else if currentGroup' != null then currentGroup' else this;
      label BeforeWrite:
      currentDict.Put(f.tag, f.value);
      if currentDict != this {
        var last := |groups'| - 1;
        ghost var written := withGroup.groups[last := withGroup.groups[last][f.tag := f.value]];
        forall i | 0 <= i < |groups'|
          ensures groups'[i].dict == written[i]
        {
          if i < last {
            assert groups'[i] != currentDict;
            assert groups'[i].dict == old@BeforeWrite(groups'[i].dict);
          }
        }
        assert Route(m, f) == withGroup.(groups := written);
      }
    }

    /**
     * One pass of the loop body of `Parse` over the unread input `inputSpan`
     * (not empty), with `m` the message written so far: it breaks out when
     * no SOH is left, stops on a segment without `=` (where the source's
     * `continue` would repeat the pass forever), throws on a bad tag, and
     * otherwise stores the field and consumes its segment.
     */
    method Pass(ghost m: Message, inputSpan: string, groups: seq<FixDictionaryBase3>, currentGroup: FixDictionaryBase3?)
      returns (next: PassEnd, ghost m': Message, groups': seq<FixDictionaryBase3>, currentGroup': FixDictionaryBase3?)
      requires currentGroup == null <==> |groups| == 0
      requires currentGroup != null ==> currentGroup == groups[|groups| - 1]
      requires this !in groups
      requires forall i, j :: 0 <= i < j < |groups| ==> groups[i] != groups[j]
      requires Stores(m, groups)
      modifies this, currentGroup
      ensures next.Consumed? ==> |next.rest| < |inputSpan| && Run3(Config(inputSpan, m)) == Run3(Config(next.rest, m'))
      ensures next.Consumed? ==>
                (var i := IndexOf(inputSpan, SOH);
                 i != -1 && SplitField(inputSpan[..i]).Ok? && next.rest == inputSpan[i + 1..]
                 && m' == Route(m, SplitField(inputSpan[..i]).value))
      ensures next == Break ==> Run3(Config(inputSpan, m)) == Completed(m') && m' == m
      ensures next == Stuck ==> Run3(Config(inputSpan, m)) == Spins
      ensures next.Raise? ==> Run3(Config(inputSpan, m)) == Threw(next.error)
      ensures || (groups' == groups && currentGroup' == currentGroup)
              || (fresh(currentGroup') && groups' == groups + [currentGroup'])
      ensures currentGroup' == null <==> |groups'| == 0
      ensures currentGroup' != null ==> currentGroup' == groups'[|groups'| - 1]
      ensures this !in groups'
      ensures forall i, j :: 0 <= i < j < |groups'| ==> groups'[i] != groups'[j]
      ensures Stores(m', groups')
    {
      m', groups', currentGroup' := m, groups, currentGroup;
      var splitterIndex := IndexOf(inputSpan, SOH);
      Run3FirstSegment(inputSpan, m, splitterIndex);
      if splitterIndex == -1 {
        return Break, m', groups', currentGroup';
      }
      var leftPart := inputSpan[..splitterIndex];
      var equalIndex := IndexOf(leftPart, EQUALS);
      if equalIndex == -1 {
        // `continue` with `inputSpan` unchanged: this pass repeats forever
        return Stuck, m', groups', currentGroup';
      }
      var field := ReadTagged(leftPart, equalIndex);
      if field.Err? {
        return Raise(field.error), m', groups', currentGroup';
      }
      groups', currentGroup' := Store(m, field.value, groups, currentGroup);
      m' := Route(m, field.value);
      next := Consumed(inputSpan[splitterIndex + 1..]);
    }

    /**
     * `FixDictionaryBase_3.Parse`.  The loop cannot be run forever here: on
     * the pass that `continue`s without consuming anything the method
     * returns `Hangs`, standing in for the source's endless loop.  Otherwise
     * it completes or throws as `Run3` does from the old contents.
     */
    method Parse(input: string) returns (groups: seq<FixDictionaryBase3>, ending: Ending)
      modifies this
      ensures this !in groups
      ensures fresh(groups)
      ensures forall i, j :: 0 <= i < j < |groups| ==> groups[i] != groups[j]
      ensures ending == Returned <==> Run3(Config(input, Message(old(dict), []))).Completed?
      ensures ending == Hangs <==> Run3(Config(input, Message(old(dict), []))) == Spins
      ensures ending.Raised? <==> Run3(Config(input, Message(old(dict), []))).Threw?
      ensures ending.Raised? ==> ending.error == Run3(Config(input, Message(old(dict), []))).error
      ensures ending == Returned ==> Stores(Run3(Config(input, Message(old(dict), []))).msg, groups)
    {
      groups := [];
      var currentGroup: FixDictionaryBase3? := null;
      var inputSpan := input;
      ghost var m := Message(dict, []);
      ghost var target := Run3(Config(input, m));
      while |inputSpan| > 0
        invariant target == Run3(Config(inputSpan, m))
        invariant currentGroup == null <==> |groups| == 0
        invariant currentGroup != null ==> currentGroup == groups[|groups| - 1]
        invariant currentGroup == null || fresh(currentGroup)
        invariant this !in groups
        invariant fresh(groups)
        invariant forall i, j :: 0 <= i < j < |groups| ==> groups[i] != groups[j]
        invariant Stores(m, groups)
        decreases |inputSpan|
      {
        ghost var before := groups;
        var next;
        next, m, groups, currentGroup := Pass(m, inputSpan, groups, currentGroup);
        FixDictionary.StaysFresh(before, groups, currentGroup);
        match next
        case Break =>
          break;
        case Stuck =>
          return groups, Hangs;
        case Raise(e) =>
          return groups, Raised(e);
        case Consumed(rest) =>
          inputSpan := rest;
      }
      if |inputSpan| == 0 {
        Run3Facts(Config(inputSpan, m));
      }
      ending := Returned;
    }
  }

  /**
   * `new FixDictionary_3(fixString)`: the class derives from
   * `FixDictionaryBase`, so the text is decoded by the first decoder and an
   * exception from it escapes.  `AsSpan` turns a null text (`None`) into
   * the empty span.
   */
  class FixDictionary3 {
    const fixString: Option<string>
    const root: FixDictionary.FixDictionaryBase
    const Groups: seq<FixDictionary.FixDictionaryBase>

    constructor Assemble(fixString: Option<string>, root: FixDictionary.FixDictionaryBase, groups: seq<FixDictionary.FixDictionaryBase>)
      ensures this.fixString == fixString && this.root == root && Groups == groups
    {
      this.fixString := fixString;
      this.root := root;
      Groups := groups;
    }

    static method Create(fixString: Option<string>) returns (r: Result<FixDictionary3, Exception>)
      ensures r.Ok? <==> FixDictionary.Decode(AsSpan(fixString)).Ok?
      ensures r.Err? ==> FixDictionary.Decode(AsSpan(fixString)) == Err(r.error)
      ensures r.Ok? ==> fresh(r.value) && fresh(r.value.root) && r.value.fixString == fixString
      ensures fixString.None? ==> r.Ok? && r.value.root.dict == map[] && r.value.Groups == []
      ensures r.Ok? ==> r.value.root !in r.value.Groups
      ensures r.Ok? ==> fresh(r.value.Groups)
      ensures r.Ok? ==> forall i, j :: 0 <= i < j < |r.value.Groups| ==> r.value.Groups[i] != r.value.Groups[j]
      ensures r.Ok? ==> r.value.root.Stores(FixDictionary.Decode(AsSpan(fixString)).value, r.value.Groups)
    {
      FixDictionary.DecodeEmpty();
      var root := new FixDictionary.FixDictionaryBase();
      var groups, error := root.Parse(AsSpan(fixString));
      if error.Some? {
        return Err(error.value);
      }
      var d := new FixDictionary3.Assemble(fixString, root, groups);
      return Ok(d);
    }
  }

  // ---------------------------------------------------------------------
  // Typed accessors over one container

  /** `int.TryParse(value, out result)`: false and 0 for null or for text that is not an Int32. */
  function TryParseIntOut(value: Option<string>): (r: (bool, int))
    ensures r.0 <==> value.Some? && ParseInt32(value.value).Parsed?
    ensures r.0 ==> r.1 == ParseInt32(value.value).number && IsInt32(r.1)
    ensures !r.0 ==> r.1 == 0
  {
    match value
    case None => (false, 0)
    case Some(t) =>
      match ParseInt32(t)
      case Parsed(n) => (true, n)
      case _ => (false, 0)
  }

  /** `TryParseInt(value)`: the parsed Int32, or `InvalidCastException` for anything else. */
  function TryParseInt(value: Option<string>): (r: Result<int, Exception>)
    ensures r.Ok? <==> TryParseIntOut(value).0
    ensures r.Ok? ==> r.value == TryParseIntOut(value).1
    ensures r.Err? ==> r.error == InvalidCast
  {
    var (ok, n) := TryParseIntOut(value);
    if ok then Ok(n) else Err(InvalidCast)
  }

  /** `long.TryParse(value, out result)`: false and 0 for null or for text that is not an Int64. */
  function TryParseLongOut(value: Option<string>): (r: (bool, int))
    ensures r.0 <==> value.Some? && ParseInt64(value.value).Parsed?
    ensures r.0 ==> r.1 == ParseInt64(value.value).number && IsInt64(r.1)
    ensures !r.0 ==> r.1 == 0
  {
    match value
    case None => (false, 0)
    case Some(t) =>
      match ParseInt64(t)
      case Parsed(n) => (true, n)
      case _ => (false, 0)
  }

  /** `TryParseLong(value)`: the parsed Int64, or `InvalidCastException` for anything else. */
  function TryParseLong(value: Option<string>): (r: Result<int, Exception>)
    ensures r.Ok? <==> TryParseLongOut(value).0
    ensures r.Ok? ==> r.value == TryParseLongOut(value).1
    ensures r.Err? ==> r.error == InvalidCast
  {
    var (ok, n) := TryParseLongOut(value);
    if ok then Ok(n) else Err(InvalidCast)
  }

  /**
   * `GetInt`: agrees with the first family wherever the tag is present and
   * converts; an absent tag, which the first family reads as 0, and every
   * conversion error become `InvalidCastException`.
   */
  function GetInt(d: Container, tag: int): (r: Result<int, Exception>)
    ensures r.Ok? <==> tag in d && FixDictionary.GetInt(d, tag).Ok?
    ensures r.Ok? ==> r == FixDictionary.GetInt(d, tag)
    ensures r.Err? ==> r.error == InvalidCast
  {
    TryParseInt(GetTag(d, tag))
  }

  /** `GetNullableInt`: never throws; null for an absent tag and for text the first family would throw on. */
  function GetNullableInt(d: Container, tag: int): (r: Option<int>)
    ensures r.Some? <==> FixDictionary.GetNullableInt(d, tag).Ok? && FixDictionary.GetNullableInt(d, tag).value.Some?
    ensures r.Some? ==> FixDictionary.GetNullableInt(d, tag) == Ok(r)
  {
    var (ok, n) := TryParseIntOut(GetTag(d, tag));
    if ok then Some(n) else None
  }

  /** `GetLong`: as `GetInt`, in the Int64 width. */
  function GetLong(d: Container, tag: int): (r: Result<int, Exception>)
    ensures r.Ok? <==> tag in d && FixDictionary.GetLong(d, tag).Ok?
    ensures r.Ok? ==> r == FixDictionary.GetLong(d, tag)
    ensures r.Err? ==> r.error == InvalidCast
  {
    TryParseLong(GetTag(d, tag))
  }

  /** `GetNullableLong`: as `GetNullableInt`, in the Int64 width. */
  function GetNullableLong(d: Container, tag: int): (r: Option<int>)
    ensures r.Some? <==> FixDictionary.GetNullableLong(d, tag).Ok? && FixDictionary.GetNullableLong(d, tag).value.Some?
    ensures r.Some? ==> FixDictionary.GetNullableLong(d, tag) == Ok(r)
  {
    var (ok, n) := TryParseLongOut(GetTag(d, tag));
    if ok then Some(n) else None
  }

  /** Canonical Int32 text reads back through every integer accessor of this family. */
  lemma IntAccessorsRoundTrip(d: Container, tag: int, n: int)
    requires IsInt32(n)
    ensures GetInt(d[tag := FormatInt(n)], tag) == Ok(n)
    ensures GetNullableInt(d[tag := FormatInt(n)], tag) == Some(n)
    ensures GetLong(d[tag := FormatInt(n)], tag) == Ok(n)
    ensures GetNullableLong(d[tag := FormatInt(n)], tag) == Some(n)
  {
    ParseFormatInt(n, INT32_MIN, INT32_MAX);
    ParseFormatInt(n, INT64_MIN, INT64_MAX);
  }

  /** On an absent tag the two families part ways: 0 against `InvalidCastException`, null in both nullable forms. */
  lemma AbsentTagCompared(d: Container, tag: int)
    requires tag !in d
    ensures FixDictionary.GetInt(d, tag) == Ok(0) && GetInt(d, tag) == Err(InvalidCast)
    ensures FixDictionary.GetLong(d, tag) == Ok(0) && GetLong(d, tag) == Err(InvalidCast)
    ensures FixDictionary.GetNullableInt(d, tag) == Ok(None) && GetNullableInt(d, tag) == None
    ensures FixDictionary.GetNullableLong(d, tag) == Ok(None) && GetNullableLong(d, tag) == None
  {
  }
}
