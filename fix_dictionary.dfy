/**
 * FIX_Benchmark/FixDictionary.cs: `FixDictionaryBase` (the decoder and the
 * typed accessors) and `FixDictionary` (the message type built from a string).
 *
 * `Parse` scans the input once, left to right; a segment without `=` or with
 * a tag that is not an Int32 throws and aborts the whole decode.  It is
 * proved against `Run`, a fold over the SOH-terminated segments.  The
 * accessors are functions of the container's map: `Convert.ToInt32(null)`
 * is 0, so an absent tag reads as 0 through `GetInt` and `GetLong`.
 */
module FixDictionary {
  import opened Wrappers
  import opened DotNet
  import opened FixMessage

  // ---------------------------------------------------------------------
  // The decoder as a fold

  /** Decodes the segments one by one from `m`; the first malformed segment aborts with its exception. */
  function Run(m: Message, segs: seq<string>): Result<Message, Exception>
    decreases |segs|
  {
    if segs == [] then Ok(m)
    else
      match SplitField(segs[0])
      case Err(e) => Err(e)
      case Ok(f) => Run(Route(m, f), segs[1..])
  }

  /** One step of the fold: the segment up to the first SOH of `s` fails, or is routed and the rest follows. */
  lemma RunFirstSegment(m: Message, s: string, i: int)
    requires i == IndexOf(s, SOH) && i != -1
    ensures SplitField(s[..i]).Err? ==> Run(m, Segments(s)) == Err(SplitField(s[..i]).error)
    ensures SplitField(s[..i]).Ok? ==> Run(m, Segments(s)) == Run(Route(m, SplitField(s[..i]).value), Segments(s[i + 1..]))
  {
    var segs := Segments(s);
    assert segs == [s[..i]] + Segments(s[i + 1..]);
    assert segs[0] == s[..i] && segs[1..] == Segments(s[i + 1..]);
  }

  /** The fold is "split every segment, then route the fields": an error leaves no partial message. */
  lemma {:induction false} RunIsReplay(m: Message, segs: seq<string>)
    ensures Run(m, segs).Ok? <==> ParseFields(segs).Ok?
    ensures Run(m, segs).Ok? ==> Run(m, segs).value == Replay(m, ParseFields(segs).value)
    ensures Run(m, segs).Err? ==> Run(m, segs).error == ParseFields(segs).error
    decreases |segs|
  {
    if segs != [] && SplitField(segs[0]).Ok? {
      RunIsReplay(Route(m, SplitField(segs[0]).value), segs[1..]);
    }
  }

  /**
   * What `new FixDictionary(s)` decodes `s` to, or the exception its
   * constructor throws.  Decoding succeeds exactly when every SOH-terminated
   * segment splits into a field; the message is then `Build` of those
   * fields, and otherwise the error is the first malformed segment's
   * (`ArgumentOutOfRange` when it has no `=`, `Format` or `Overflow` when
   * its tag is not an Int32).
   */
  function Decode(s: string): (r: Result<Message, Exception>)
    ensures r.Ok? <==> ParseFields(Segments(s)).Ok?
    ensures r.Ok? <==> FirstFailure(Segments(s)) == -1
    ensures r.Ok? ==> r.value == Build(ParseFields(Segments(s)).value)
    ensures r.Err? ==> SplitField(Segments(s)[FirstFailure(Segments(s))]) == Err(r.error)
  {
    RunIsReplay(Empty, Segments(s));
    ParseFieldsFailsAtFirstFailure(Segments(s));
    Run(Empty, Segments(s))
  }

  /** The empty text (and so a null one) decodes to no fields at all. */
  lemma DecodeEmpty()
    ensures Decode("") == Ok(Empty)
  {
    assert Segments("") == [];
  }

  /** Only SOH-terminated segments are decoded: the text after the last SOH changes nothing. */
  lemma TrailingTextIgnored(s: string)
    ensures s == Terminated(Segments(s)) + Trailing(s) && SOH !in Trailing(s)
    ensures Decode(s) == Decode(Terminated(Segments(s)))
  {
    SegmentsCoverInput(s);
    SegmentsOfTerminated(Segments(s), []);
    assert Terminated(Segments(s)) + [] == Terminated(Segments(s));
  }

  /** Round trip: an encoded field list, followed by any SOH-free text, decodes to `Build` of it. */
  lemma DecodeEncode(fs: seq<Field>, t: string)
    requires WellFormed(fs) && SOH !in t
    ensures Decode(Encode(fs) + t) == Ok(Build(fs))
  {
    SegmentsOfEncode(fs, t);
    RunIsReplay(Empty, Segments(Encode(fs) + t));
  }

  // ---------------------------------------------------------------------
  // The objects

  /** Appending a container allocated since the state `old` refers to keeps a sequence of such containers fresh. */
  twostate lemma StaysFresh(new before: seq<object>, new after: seq<object>, new last: object?)
    requires fresh(before)
    requires last == null || fresh(last)
    requires after == before || (last != null && after == before + [last])
    ensures fresh(after)
  {
  }

  /** `FixDictionaryBase`: one container of fields, filled in place by `Parse`. */
  class FixDictionaryBase {
    var dict: Container

    constructor ()
      ensures dict == map[]
    {
      dict := map[];
    }

    /** `dictionary[key] = value`: adds the entry or overwrites the old value. */
    method Put(key: int, value: string)
      modifies this
      ensures dict == old(dict)[key := value]
    {
      dict := dict[key := value];
    }

    /** This container holds the top level of `m` and `groups` hold its group containers, in order. */
    ghost predicate Stores(m: Message, groups: seq<FixDictionaryBase>)
      reads this, groups
    {
      && dict == m.top
      && |groups| == |m.groups|
      && forall i :: 0 <= i < |groups| ==> groups[i].dict == m.groups[i]
    }

    /**
     * One key-value pair of `Parse`: the tag before the first `=` is read
     * with `int.Parse`, the value is the rest of the segment.  A segment
     * without `=` makes the tag slice `leftPart[..-1]` throw.
     */
    static method ReadField(leftPart: string) returns (r: Result<Field, Exception>)
      ensures r == SplitField(leftPart)
    {
      var equalIndex := IndexOf(leftPart, EQUALS);
      if equalIndex == -1 {
        return Err(ArgumentOutOfRange);
      }
      match ParseOrThrow(ParseInt32(leftPart[..equalIndex])) {
        case Err(e) =>
          return Err(e);
        case Ok(key) =>
          var value := leftPart[equalIndex + 1..];
          return Ok(Field(key, value));
      }
    }

    /**
     * The write step of `Parse` on the top-level container `this`: tag 83
     * opens a fresh group container and makes it current; the field then
     * goes to `this` when it is the checksum or no group is open, and to the
     * current group otherwise.  The containers follow `Route`.
     */
    method Store(ghost m: Message, f: Field, groups: seq<FixDictionaryBase>, currentGroup: FixDictionaryBase?, hasGroup: bool)
      returns (groups': seq<FixDictionaryBase>, currentGroup': FixDictionaryBase?, hasGroup': bool)
      requires hasGroup <==> |groups| > 0
      requires hasGroup ==> currentGroup == groups[|groups| - 1]
      requires this !in groups
      requires forall i, j :: 0 <= i < j < |groups| ==> groups[i] != groups[j]
      requires Stores(m, groups)
      modifies this, currentGroup
      ensures f.tag == RPT_SEQ ==> fresh(currentGroup') && groups' == groups + [currentGroup']
      ensures f.tag != RPT_SEQ ==> groups' == groups && currentGroup' == currentGroup
      ensures hasGroup' <==> |groups'| > 0
      ensures this !in groups'
      ensures forall i, j :: 0 <= i < j < |groups'| ==> groups'[i] != groups'[j]
      ensures hasGroup' ==> currentGroup' == groups'[|groups'| - 1]
      ensures Stores(Route(m, f), groups')
    {
      groups', currentGroup', hasGroup' := groups, currentGroup, hasGroup;
      ghost var withGroup := m;
      if f.tag == RPT_SEQ {
        hasGroup' := true;
        currentGroup' := new FixDictionaryBase();
        groups' := groups + [currentGroup'];
        withGroup := m.(groups := m.groups + [map[]]);
      }
      assert Stores(withGroup, groups');
      var isChecksum := f.tag == CHECK_SUM;
      var currentDict := if isChecksum then this else if hasGroup' then currentGroup' else this;
      label BeforeWrite:
      currentDict.Put(f.tag, f.value);
      if currentDict != this {
        var last := |groups'| - 1;
        ghost var written := withGroup.groups[last := withGroup.groups[last][f.tag := f.value]];
        forall i | 0 <= i < |groups'|
          ensures groups'[i].dict == written[i]
        {
          if i < last {
            assert groups'[i] != currentDict;
            assert groups'[i].dict == old@BeforeWrite(groups'[i].dict);
          }
        }
        assert Route(m, f) == withGroup.(groups := written);
      }
    }

    /**
     * One pass of the loop body of `Parse` over the unread input
     * `inputSpan`, whose first SOH is at `splitterIndex`, with `m` the
     * message written so far: the segment before that SOH either throws, or
     * its field is stored and the segment and its SOH are consumed.
     */
    method Pass(ghost m: Message, inputSpan: string, splitterIndex: int, groups: seq<FixDictionaryBase>,
                currentGroup: FixDictionaryBase?, hasGroup: bool)
      returns (error: Option<Exception>, ghost m': Message, rest: string, groups': seq<FixDictionaryBase>,
               currentGroup': FixDictionaryBase?, hasGroup': bool)
      requires splitterIndex == IndexOf(inputSpan, SOH) && splitterIndex != -1
      requires hasGroup <==> |groups| > 0
      requires hasGroup ==> currentGroup == groups[|groups| - 1]
      requires this !in groups
      requires forall i, j :: 0 <= i < j < |groups| ==> groups[i] != groups[j]
      requires Stores(m, groups)
      modifies this, currentGroup
      ensures error.Some? ==> Run(m, Segments(inputSpan)) == Err(error.value)
      ensures error.None? ==> |rest| < |inputSpan| && Run(m, Segments(inputSpan)) == Run(m', Segments(rest))
      ensures error.None? ==> SplitField(inputSpan[..splitterIndex]).Ok? && rest == inputSpan[splitterIndex + 1..]
                              && m' == Route(m, SplitField(inputSpan[..splitterIndex]).value)
      ensures || (groups' == groups && currentGroup' == currentGroup)
              || (fresh(currentGroup') && groups' == groups + [currentGroup'])
      ensures hasGroup' <==> |groups'| > 0
      ensures hasGroup' ==> currentGroup' == groups'[|groups'| - 1]
      ensures this !in groups'
      ensures forall i, j :: 0 <= i < j < |groups'| ==> groups'[i] != groups'[j]
      ensures error.None? ==> Stores(m', groups')
    {
      m', rest, groups', currentGroup', hasGroup' := m, inputSpan, groups, currentGroup, hasGroup;
      var leftPart := inputSpan[..splitterIndex];
      var field := ReadField(leftPart);
      RunFirstSegment(m, inputSpan, splitterIndex);
      if field.Err? {
        return Some(field.error), m', rest, groups', currentGroup', hasGroup';
      }
      groups', currentGroup', hasGroup' := Store(m, field.value, groups, currentGroup, hasGroup);
      m' := Route(m, field.value);
      rest := inputSpan[splitterIndex + 1..];
      error := None;
    }

    /**
     * `FixDictionaryBase.Parse`: writes the fields of `input` into this
     * container and into freshly allocated group containers.  On success the
     * state is what `Run` computes from the old contents; on a malformed
     * segment the exception `Run` reports is raised.
     */
    method Parse(input: string) returns (groups: seq<FixDictionaryBase>, error: Option<Exception>)
      modifies this
      ensures this !in groups
      ensures fresh(groups)
      ensures forall i, j :: 0 <= i < j < |groups| ==> groups[i] != groups[j]
      ensures error.Some? <==> Run(Message(old(dict), []), Segments(input)).Err?
      ensures error.Some? ==> Run(Message(old(dict), []), Segments(input)).error == error.value
      ensures error.None? ==> Stores(Run(Message(old(dict), []), Segments(input)).value, groups)
    {
      groups := [];
      var currentGroup: FixDictionaryBase? := null;
      var inputSpan := input;
      var splitterIndex := IndexOf(inputSpan, SOH);
      var hasGroup := false;
      ghost var m := Message(dict, []);
      ghost var target := Run(m, Segments(input));
      while splitterIndex != -1
        invariant splitterIndex == IndexOf(inputSpan, SOH)
        invariant target == Run(m, Segments(inputSpan))
        invariant hasGroup <==> |groups| > 0
        invariant hasGroup ==> currentGroup == groups[|groups| - 1]
        invariant this !in groups
        invariant currentGroup == null || fresh(currentGroup)
        invariant fresh(groups)
        invariant forall i, j :: 0 <= i < j < |groups| ==> groups[i] != groups[j]
        invariant Stores(m, groups)
        decreases |inputSpan|
      {
        ghost var before := groups;
        var failure;
        failure, m, inputSpan, groups, currentGroup, hasGroup := Pass(m, inputSpan, splitterIndex, groups, currentGroup, hasGroup);
        StaysFresh(before, groups, currentGroup);
        if failure.Some? {
          return groups, failure;
        }
        splitterIndex := IndexOf(inputSpan, SOH);
      }
      assert Segments(inputSpan) == [];
      error := None;
    }
  }

  /** `FixDictionary`: the raw text, the top-level container (`root`) and the group containers. */
  class FixDictionary {
    const fixString: Option<string>
    const root: FixDictionaryBase
    const Groups: seq<FixDictionaryBase>

    constructor Assemble(fixString: Option<string>, root: FixDictionaryBase, groups: seq<FixDictionaryBase>)
      ensures this.fixString == fixString && this.root == root && Groups == groups
    {
      this.fixString := fixString;
      this.root := root;
      Groups := groups;
    }

    /**
     * `new FixDictionary(fixString)`: keeps the text verbatim and decodes it
     * with `Parse`; an exception from `Parse` escapes and no object results.
     * A null text (`None`) becomes the empty span and decodes to no fields.
     */
    static method Create(fixString: Option<string>) returns (r: Result<FixDictionary, Exception>)
      ensures r.Ok? <==> Decode(AsSpan(fixString)).Ok?
      ensures r.Err? ==> Decode(AsSpan(fixString)) == Err(r.error)
      ensures r.Ok? ==> fresh(r.value) && fresh(r.value.root) && r.value.fixString == fixString
      ensures fixString.None? ==> r.Ok? && r.value.root.dict == map[] && r.value.Groups == []
      ensures r.Ok? ==> r.value.root !in r.value.Groups
      ensures r.Ok? ==> fresh(r.value.Groups)
      ensures r.Ok? ==> forall i, j :: 0 <= i < j < |r.value.Groups| ==> r.value.Groups[i] != r.value.Groups[j]
      ensures r.Ok? ==> r.value.root.Stores(Decode(AsSpan(fixString)).value, r.value.Groups)
    {
      DecodeEmpty();
      var root := new FixDictionaryBase();
      var groups, error := root.Parse(AsSpan(fixString));
      if error.Some? {
        return Err(error.value);
      }
      var d := new FixDictionary.Assemble(fixString, root, groups);
      return Ok(d);
    }
  }

  // ---------------------------------------------------------------------
  // Typed accessors over one container

  /** `GetString`: the raw value, or null when the tag is absent. */
  function GetString(d: Container, tag: int): (r: Option<string>)
    ensures r.None? <==> tag !in d
    ensures r.Some? ==> r.value == d[tag]
  {
    GetTag(d, tag)
  }

  /** `Convert.ToInt32(text, culture)`: null converts to 0, other text goes through `int.Parse`. */
  function ToInt32(text: Option<string>): (r: Result<int, Exception>)
    ensures text.None? ==> r == Ok(0)
    ensures text.Some? ==> (r.Ok? <==> ParseInt32(text.value).Parsed?)
    ensures text.Some? && r.Ok? ==> r.value == IntegerTextValue(text.value) && IsInt32(r.value)
    ensures text.Some? && r.Err? ==> r.error == (if IsIntegerText(text.value) then Overflow else Format)
  {
    match text
    case None => Ok(0)
    case Some(t) => ParseOrThrow(ParseInt32(t))
  }

  /** `Convert.ToInt64(text, culture)`: null converts to 0, other text goes through `long.Parse`. */
  function ToInt64(text: Option<string>): (r: Result<int, Exception>)
    ensures text.None? ==> r == Ok(0)
    ensures text.Some? ==> (r.Ok? <==> ParseInt64(text.value).Parsed?)
    ensures text.Some? && r.Ok? ==> r.value == IntegerTextValue(text.value) && IsInt64(r.value)
    ensures text.Some? && r.Err? ==> r.error == (if IsIntegerText(text.value) then Overflow else Format)
  {
    match text
    case None => Ok(0)
    case Some(t) => ParseOrThrow(ParseInt64(t))
  }

  /** `GetInt`: an absent tag reads as 0; present text must be an Int32 or the call throws. */
  function GetInt(d: Container, tag: int): (r: Result<int, Exception>)
    ensures tag !in d ==> r == Ok(0)
    ensures r.Ok? ==> IsInt32(r.value)
    ensures tag in d ==> (r.Ok? <==> ParseInt32(d[tag]).Parsed?)
    ensures tag in d && r.Ok? ==> r.value == ParseInt32(d[tag]).number
    ensures tag in d && r.Err? ==> r.error == (if IsIntegerText(d[tag]) then Overflow else Format)
  {
    ToInt32(GetTag(d, tag))
  }

  /** `GetNullableInt`: null for an absent tag; present text converts as in `GetInt`, and may throw. */
  function GetNullableInt(d: Container, tag: int): (r: Result<Option<int>, Exception>)
    ensures r == Ok(None) <==> tag !in d
    ensures tag in d ==> (r.Ok? <==> GetInt(d, tag).Ok?)
    ensures tag in d && r.Ok? ==> r.value == Some(GetInt(d, tag).value)
    ensures tag in d && r.Err? ==> r.error == GetInt(d, tag).error
  {
    if tag in d then
      match ToInt32(Some(d[tag]))
      case Ok(n) => Ok(Some(n))
      case Err(e) => Err(e)
    else Ok(None)
  }

  /** `GetLong`: as `GetInt`, in the Int64 width. */
  function GetLong(d: Container, tag: int): (r: Result<int, Exception>)
    ensures tag !in d ==> r == Ok(0)
    ensures r.Ok? ==> IsInt64(r.value)
    ensures tag in d ==> (r.Ok? <==> ParseInt64(d[tag]).Parsed?)
    ensures tag in d && r.Ok? ==> r.value == ParseInt64(d[tag]).number
    ensures tag in d && r.Err? ==> r.error == (if IsIntegerText(d[tag]) then Overflow else Format)
  {
    ToInt64(GetTag(d, tag))
  }

  /** `GetNullableLong`: as `GetNullableInt`, in the Int64 width. */
  function GetNullableLong(d: Container, tag: int): (r: Result<Option<int>, Exception>)
    ensures r == Ok(None) <==> tag !in d
    ensures tag in d ==> (r.Ok? <==> GetLong(d, tag).Ok?)
    ensures tag in d && r.Ok? ==> r.value == Some(GetLong(d, tag).value)
    ensures tag in d && r.Err? ==> r.error == GetLong(d, tag).error
  {
    if tag in d then
      match ToInt64(Some(d[tag]))
      case Ok(n) => Ok(Some(n))
      case Err(e) => Err(e)
    else Ok(None)
  }

  /** `GetBoolean`: `"Y"` is true, `"N"` is false; anything else, an absent tag included, throws. */
  function GetBoolean(d: Container, tag: int): (r: Result<bool, Exception>)
    ensures r == Ok(true) <==> tag in d && d[tag] == "Y"
    ensures r == Ok(false) <==> tag in d && d[tag] == "N"
    ensures r.Err? ==> r.error == InvalidCast
  {
    YesNo(GetTag(d, tag))
  }

  /** `GetNullableBoolean`: null only for an absent tag; present text converts as in `GetBoolean`. */
  function GetNullableBoolean(d: Container, tag: int): (r: Result<Option<bool>, Exception>)
    ensures r == Ok(None) <==> tag !in d
    ensures r == Ok(Some(true)) <==> tag in d && d[tag] == "Y"
    ensures r == Ok(Some(false)) <==> tag in d && d[tag] == "N"
    ensures r.Err? ==> tag in d && r.error == InvalidCast
  {
    if tag in d then
      match YesNo(Some(d[tag]))
      case Ok(b) => Ok(Some(b))
      case Err(e) => Err(e)
    else Ok(None)
  }

  /** Writing the canonical text of an Int32 and reading it back through every integer accessor gives it back. */
  lemma IntAccessorsRoundTrip(d: Container, tag: int, n: int)
    requires IsInt32(n)
    ensures GetInt(d[tag := FormatInt(n)], tag) == Ok(n)
    ensures GetNullableInt(d[tag := FormatInt(n)], tag) == Ok(Some(n))
    ensures GetLong(d[tag := FormatInt(n)], tag) == Ok(n)
    ensures GetNullableLong(d[tag := FormatInt(n)], tag) == Ok(Some(n))
  {
    ParseFormatInt(n, INT32_MIN, INT32_MAX);
    ParseFormatInt(n, INT64_MIN, INT64_MAX);
  }

  /** An Int64 that does not fit Int32 reads back through `GetLong` but overflows `GetInt`. */
  lemma LongBeyondInt32Overflows(d: Container, tag: int, n: int)
    requires IsInt64(n) && !IsInt32(n)
    ensures GetLong(d[tag := FormatInt(n)], tag) == Ok(n)
    ensures GetInt(d[tag := FormatInt(n)], tag) == Err(Overflow)
    ensures GetNullableInt(d[tag := FormatInt(n)], tag) == Err(Overflow)
  {
    ParseFormatInt(n, INT32_MIN, INT32_MAX);
    ParseFormatInt(n, INT64_MIN, INT64_MAX);
  }

  /**
   * `GetLong` widens `GetInt`: wherever `GetInt` reads a number `GetLong`
   * reads the same one, and badly formed text fails both with `Format`.
   */
  lemma GetLongExtendsGetInt(d: Container, tag: int)
    ensures GetInt(d, tag).Ok? ==> GetLong(d, tag) == GetInt(d, tag)
    ensures GetLong(d, tag).Ok? && IsInt32(GetLong(d, tag).value) ==> GetInt(d, tag) == GetLong(d, tag)
    ensures GetInt(d, tag) == Err(Format) <==> GetLong(d, tag) == Err(Format)
  {
  }

  /** The boolean accessors invert the FIX Boolean format. */
  lemma BooleanAccessorsRoundTrip(d: Container, tag: int, b: bool)
    ensures GetBoolean(d[tag := FormatBoolean(b)], tag) == Ok(b)
    ensures GetNullableBoolean(d[tag := FormatBoolean(b)], tag) == Ok(Some(b))
  {
    YesNoInvertsFormat(Some(FormatBoolean(b)), b);
  }

  /**
   * Reading a decoded message: `GetString` on any container returns the last
   * value routed to it for that tag, and null when none was.
   */
  lemma DecodedStrings(s: string, m: Message, tag: int)
    requires Decode(s) == Ok(m)
    ensures ParseFields(Segments(s)).Ok?
    ensures var fs := ParseFields(Segments(s)).value;
            && GetString(m.top, tag) == LastWrite(fs, TopLevel, tag)
            && forall k :: 0 <= k < |m.groups| ==> GetString(m.groups[k], tag) == LastWrite(fs, Group(k), tag)
  {
    var fs := ParseFields(Segments(s)).value;
    BuildFollowsOwnership(fs);
    assert Lookup(m, TopLevel, tag) == LastWrite(fs, TopLevel, tag);
    forall k | 0 <= k < |m.groups|
      ensures GetString(m.groups[k], tag) == LastWrite(fs, Group(k), tag)
    {
      assert Lookup(m, Group(k), tag) == LastWrite(fs, Group(k), tag);
    }
  }
}
