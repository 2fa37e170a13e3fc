/**
 * The FIX tag=value wire format shared by both decoder variants: fields are
 * `tag=value` and each one ends with the SOH (0x01) delimiter; tag 83
 * (RptSeq) opens a repeating-group container and tag 10 (CheckSum) always
 * belongs to the top-level container.
 *
 * The decoded message is a top-level container plus the ordered list of
 * group containers.  `Route` is the routing rule of one field; `Replay`
 * routes a whole field list.  `Owner` and `LastWrite` restate the routing
 * positionally (which container field j lands in, and the last write to a
 * tag in a container), and `BuildFollowsOwnership` proves the two agree.
 */
module FixMessage {
  import opened Wrappers
  import opened DotNet

  const SOH: char := '\U{1}'
  const EQUALS: char := '='
  /** RptSeq: every occurrence opens a new group container. */
  const RPT_SEQ: int := 83
  /** CheckSum: always stored in the top-level container. */
  const CHECK_SUM: int := 10

  datatype Field = Field(tag: int, value: string)

  /** One flat scope of fields: tag to raw value text. */
  type Container = map<int, string>

  datatype Message = Message(top: Container, groups: seq<Container>)

  const Empty: Message := Message(map[], [])

  /** `GetTag`: the dictionary lookup, null (`None`) for an absent tag. */
  function GetTag(d: Container, tag: int): (r: Option<string>)
    ensures r.None? <==> tag !in d
    ensures r.Some? ==> r.value == d[tag]
  {
    if tag in d then Some(d[tag]) else None
  }

  // ---------------------------------------------------------------------
  // Splitting the input at SOH

  /** The SOH-terminated segments of `s`, in order, without their delimiters. */
  function Segments(s: string): (segs: seq<string>)
    ensures forall k :: 0 <= k < |segs| ==> SOH !in segs[k]
    decreases |s|
  {
    var i := IndexOf(s, SOH);
    if i == -1 then [] else [s[..i]] + Segments(s[i + 1..])
  }

  /** The text after the last SOH (all of `s` if it holds none). */
  function Trailing(s: string): (t: string)
    ensures SOH !in t
    decreases |s|
  {
    var i := IndexOf(s, SOH);
    if i == -1 then s else Trailing(s[i + 1..])
  }

  /** Each segment followed by SOH, concatenated. */
  function Terminated(segs: seq<string>): string
  {
    if segs == [] then [] else segs[0] + [SOH] + Terminated(segs[1..])
  }

  lemma TerminatedCons(head: string, segs: seq<string>)
    ensures Terminated([head] + segs) == head + [SOH] + Terminated(segs)
  {
    assert ([head] + segs)[1..] == segs;
  }

  /** The input is exactly its terminated segments followed by SOH-free trailing text. */
  lemma {:induction false} SegmentsCoverInput(s: string)
    ensures Terminated(Segments(s)) + Trailing(s) == s
    decreases |s|
  {
    var i := IndexOf(s, SOH);
    if i != -1 {
      var head, rest := s[..i], s[i + 1..];
      SegmentsCoverInput(rest);
      TerminatedCons(head, Segments(rest));
      ConcatAssociates(head, Terminated(Segments(rest)), Trailing(rest));
      SplitAround(s, i);
      assert Segments(s) == [head] + Segments(rest);
      assert Trailing(s) == Trailing(rest);
    }
  }

  lemma SplitAround(s: string, i: int)
    requires 0 <= i < |s| && s[i] == SOH
    ensures s == s[..i] + [SOH] + s[i + 1..]
  {
  }

  lemma ConcatAssociates(a: string, b: string, c: string)
    ensures (a + [SOH] + b) + c == a + [SOH] + (b + c)
  {
  }

  /** The first SOH of `seg + [SOH] + rest` is the one after `seg` when `seg` holds none. */
  lemma FirstDelimiter(seg: string, rest: string)
    requires SOH !in seg
    ensures IndexOf(seg + [SOH] + rest, SOH) == |seg|
  {
    var s := seg + [SOH] + rest;
    assert s[|seg|] == SOH;
  }

  /** Splitting undoes `Terminated`: the segments and the trailing text come back unchanged. */
  lemma {:induction false} SegmentsOfTerminated(segs: seq<string>, t: string)
    requires forall k :: 0 <= k < |segs| ==> SOH !in segs[k]
    requires SOH !in t
    ensures Segments(Terminated(segs) + t) == segs
    ensures Trailing(Terminated(segs) + t) == t
  {
    if segs == [] {
      assert Terminated(segs) + t == t;
    } else {
      var head, tail := segs[0], Terminated(segs[1..]);
      var rest := tail + t;
      var s := Terminated(segs) + t;
      ConcatAssociates(head, tail, t);
      assert s == head + [SOH] + rest;
      FirstDelimiter(head, rest);
      assert s[..|head|] == head;
      assert s[|head| + 1..] == rest;
      SegmentsOfTerminated(segs[1..], t);
      assert Segments(s) == [head] + segs[1..];
    }
  }

  // ---------------------------------------------------------------------
  // One field

  /**
   * Splits a segment at its first `=`: the text before it is the tag
   * (`int.Parse`), the text after it, verbatim, is the value.  A segment
   * without `=` makes the tag slice `[..-1]`, which throws.
   */
  function SplitField(seg: string): (r: Result<Field, Exception>)
    ensures r == Err(ArgumentOutOfRange) <==> EQUALS !in seg
    ensures EQUALS in seg ==> (r.Ok? <==> ParseInt32(seg[..IndexOf(seg, EQUALS)]).Parsed?)
    ensures EQUALS in seg && r.Err? ==>
              r.error == (if IsIntegerText(seg[..IndexOf(seg, EQUALS)]) then Overflow else Format)
    ensures r.Ok? ==> && ParseInt32(seg[..IndexOf(seg, EQUALS)]) == Parsed(r.value.tag)
                      && r.value.value == seg[IndexOf(seg, EQUALS) + 1..]
                      && IsInt32(r.value.tag)
  {
    var i := IndexOf(seg, EQUALS);
    if i == -1 then Err(ArgumentOutOfRange)
    else
      match ParseOrThrow(ParseInt32(seg[..i]))
      case Ok(tag) => Ok(Field(tag, seg[i + 1..]))
      case Err(e) => Err(e)
  }

  /** The wire text of one field, without its delimiter. */
  function FormatField(f: Field): string
  {
    FormatInt(f.tag) + [EQUALS] + f.value
  }

  /** Round trip of one field; the value may itself contain `=`. */
  lemma SplitFormatField(f: Field)
    requires IsInt32(f.tag)
    ensures SplitField(FormatField(f)) == Ok(f)
  {
    var tagText := FormatInt(f.tag);
    var s := FormatField(f);
    var i := IndexOf(s, EQUALS);
    assert s[|tagText|] == EQUALS;
    assert s[..i] == tagText && s[i + 1..] == f.value;
    ParseFormatInt(f.tag, INT32_MIN, INT32_MAX);
  }

  /**
   * Splits every segment; the first segment that fails decides the error,
   * and then no field list is produced at all.
   */
  function ParseFields(segs: seq<string>): (r: Result<seq<Field>, Exception>)
    ensures r.Ok? ==> |r.value| == |segs| && forall j :: 0 <= j < |segs| ==> SplitField(segs[j]) == Ok(r.value[j])
  {
    if segs == [] then Ok([])
    else
      match SplitField(segs[0])
      case Err(e) => Err(e)
      case Ok(f) =>
        match ParseFields(segs[1..])
        case Err(e) => Err(e)
        case Ok(fs) => Ok([f] + fs)
  }

  /** The position of the first segment that does not split, if any. */
  function FirstFailure(segs: seq<string>): (j: int)
    ensures -1 <= j < |segs|
    ensures 0 <= j ==> SplitField(segs[j]).Err?
    ensures forall i :: 0 <= i < |segs| && (j == -1 || i < j) ==> SplitField(segs[i]).Ok?
  {
    if segs == [] then -1
    else if SplitField(segs[0]).Err? then 0
    else
      var k := FirstFailure(segs[1..]);
      if k == -1 then -1 else k + 1
  }

  /** Splitting fails exactly when some segment fails, and then with the first failing segment's error. */
  lemma {:induction false} ParseFieldsFailsAtFirstFailure(segs: seq<string>)
    ensures ParseFields(segs).Err? <==> FirstFailure(segs) != -1
    ensures ParseFields(segs).Err? ==> SplitField(segs[FirstFailure(segs)]) == Err(ParseFields(segs).error)
  {
    if segs != [] && SplitField(segs[0]).Ok? {
      ParseFieldsFailsAtFirstFailure(segs[1..]);
    }
  }

  // ---------------------------------------------------------------------
  // Routing

  /**
   * Routes one field: tag 83 first appends a fresh group; then tag 10 goes
   * to the top level, any other tag to the newest group if one exists and to
   * the top level otherwise.  The last write to a tag in a container wins.
   */
  function Route(m: Message, f: Field): (r: Message)
    ensures |r.groups| == |m.groups| + (if f.tag == RPT_SEQ then 1 else 0)
    ensures f.tag == CHECK_SUM || |r.groups| == 0 ==> r.top == m.top[f.tag := f.value] && r.groups == m.groups
    ensures f.tag != CHECK_SUM && |r.groups| > 0 ==>
              && r.top == m.top
              && r.groups[..|r.groups| - 1] == m.groups[..|r.groups| - 1]
              && r.groups[|r.groups| - 1] == (if f.tag == RPT_SEQ then map[] else m.groups[|m.groups| - 1])[f.tag := f.value]
  {
    var routed := if f.tag == RPT_SEQ then m.(groups := m.groups + [map[]]) else m;
    if f.tag == CHECK_SUM || |routed.groups| == 0 then
      routed.(top := routed.top[f.tag := f.value])
    else
      var last := |routed.groups| - 1;
      routed.(groups := routed.groups[last := routed.groups[last][f.tag := f.value]])
  }

  /** Routes the fields one by one, left to right, starting from `m`. */
  function Replay(m: Message, fs: seq<Field>): Message
    decreases |fs|
  {
    if fs == [] then m else Replay(Route(m, fs[0]), fs[1..])
  }

  /** The message a field list decodes to. */
  function Build(fs: seq<Field>): Message
  {
    Replay(Empty, fs)
  }

  lemma {:induction false} ReplayAppend(m: Message, fs: seq<Field>, f: Field)
    ensures Replay(m, fs + [f]) == Route(Replay(m, fs), f)
    decreases |fs|
  {
    if fs != [] {
      assert (fs + [f])[1..] == fs[1..] + [f];
      ReplayAppend(Route(m, fs[0]), fs[1..], f);
    } else {
      assert [f][1..] == [];
    }
  }

  // ---------------------------------------------------------------------
  // Positional reference semantics

  /** A container of a decoded message. */
  datatype Scope = TopLevel | Group(index: nat)

  /** The values of the tag-83 fields, in input order. */
  function Triggers(fs: seq<Field>): seq<string>
  {
    if fs == [] then []
    else
      var n := |fs| - 1;
      Triggers(fs[..n]) + if fs[n].tag == RPT_SEQ then [fs[n].value] else []
  }

  /**
   * The container field j belongs to: the top level for a checksum,
   * otherwise the group opened by the most recent tag 83 at or before j, or
   * the top level if there is none yet.
   */
  function Owner(fs: seq<Field>, j: nat): Scope
    requires j < |fs|
  {
    var count := |Triggers(fs[..j + 1])|;
    if fs[j].tag == CHECK_SUM || count == 0 then TopLevel else Group(count - 1)
  }

  /** The value of the last field with `tag` that belongs to `scope`, if any. */
  function LastWrite(fs: seq<Field>, scope: Scope, tag: int): Option<string>
  {
    if fs == [] then None
    else
      var n := |fs| - 1;
      if Owner(fs, n) == scope && fs[n].tag == tag then Some(fs[n].value)
      else LastWrite(fs[..n], scope, tag)
  }

  /** The value stored for `tag` in container `scope` of `m`, if any. */
  function Lookup(m: Message, scope: Scope, tag: int): Option<string>
  {
    match scope
    case TopLevel => GetTag(m.top, tag)
    case Group(k) => if k < |m.groups| then GetTag(m.groups[k], tag) else None
  }

  /**
   * The routing rule agrees with the positional one: one group per tag 83,
   * and every container holds, for every tag, the last value written to it.
   */
  lemma {:induction false} BuildFollowsOwnership(fs: seq<Field>)
    ensures |Build(fs).groups| == |Triggers(fs)|
    ensures forall scope, tag :: Lookup(Build(fs), scope, tag) == LastWrite(fs, scope, tag)
    decreases |fs|
  {
    if fs != [] {
      var n := |fs| - 1;
      var init, f := fs[..n], fs[n];
      assert fs == init + [f];
      assert fs[..n + 1] == fs;
      BuildFollowsOwnership(init);
      ReplayAppend(Empty, init, f);
      var before := Build(init);
      assert Build(fs) == Route(before, f);
      forall scope, tag
        ensures Lookup(Build(fs), scope, tag) == LastWrite(fs, scope, tag)
      {
        assert Lookup(Build(fs), scope, tag)
          == if Owner(fs, n) == scope && tag == f.tag then Some(f.value) else Lookup(before, scope, tag);
      }
    }
  }

  /** The value of the last field with `tag`, in whichever container. */
  function LastValue(fs: seq<Field>, tag: int): Option<string>
  {
    if fs == [] then None
    else
      var n := |fs| - 1;
      if fs[n].tag == tag then Some(fs[n].value) else LastValue(fs[..n], tag)
  }

  lemma {:induction false} ChecksumWrites(fs: seq<Field>, scope: Scope)
    ensures LastWrite(fs, scope, CHECK_SUM) == if scope == TopLevel then LastValue(fs, CHECK_SUM) else None
    decreases |fs|
  {
    if fs != [] {
      ChecksumWrites(fs[..|fs| - 1], scope);
    }
  }

  /** Checksum carve-out: tag 10 is never stored in a group, and the top level keeps its last value. */
  lemma ChecksumStaysTopLevel(fs: seq<Field>)
    ensures forall k :: 0 <= k < |Build(fs).groups| ==> CHECK_SUM !in Build(fs).groups[k]
    ensures GetTag(Build(fs).top, CHECK_SUM) == LastValue(fs, CHECK_SUM)
  {
    BuildFollowsOwnership(fs);
    ChecksumWrites(fs, TopLevel);
    forall k | 0 <= k < |Build(fs).groups|
      ensures CHECK_SUM !in Build(fs).groups[k]
    {
      ChecksumWrites(fs, Group(k));
      assert Lookup(Build(fs), Group(k), CHECK_SUM) == None;
    }
    assert Lookup(Build(fs), TopLevel, CHECK_SUM) == LastValue(fs, CHECK_SUM);
  }

  lemma {:induction false} TriggerWrites(fs: seq<Field>, k: nat)
    requires k < |Triggers(fs)|
    ensures LastWrite(fs, Group(k), RPT_SEQ) == Some(Triggers(fs)[k])
    decreases |fs|
  {
    var n := |fs| - 1;
    assert fs[..n + 1] == fs;
    if k < |Triggers(fs[..n])| {
      TriggerWrites(fs[..n], k);
    }
  }

  /**
   * One group per tag 83, in input order: group k holds, under tag 83, the
   * value of the k-th tag-83 field (the trigger is stored in the group it opens).
   */
  lemma GroupsFollowTriggers(fs: seq<Field>)
    ensures |Build(fs).groups| == |Triggers(fs)|
    ensures forall k :: 0 <= k < |Build(fs).groups| ==>
              RPT_SEQ in Build(fs).groups[k] && Build(fs).groups[k][RPT_SEQ] == Triggers(fs)[k]
  {
    BuildFollowsOwnership(fs);
    forall k | 0 <= k < |Build(fs).groups|
      ensures RPT_SEQ in Build(fs).groups[k] && Build(fs).groups[k][RPT_SEQ] == Triggers(fs)[k]
    {
      TriggerWrites(fs, k);
      assert Lookup(Build(fs), Group(k), RPT_SEQ) == Some(Triggers(fs)[k]);
    }
  }

  // ---------------------------------------------------------------------
  // Encoding, the inverse of splitting

  /** The wire text of a field list: every field followed by SOH. */
  function FormatFields(fs: seq<Field>): (segs: seq<string>)
    ensures |segs| == |fs|
  {
    if fs == [] then [] else [FormatField(fs[0])] + FormatFields(fs[1..])
  }

  function Encode(fs: seq<Field>): string
  {
    Terminated(FormatFields(fs))
  }

  predicate WellFormed(fs: seq<Field>)
  {
    forall j :: 0 <= j < |fs| ==> IsInt32(fs[j].tag) && SOH !in fs[j].value
  }

  lemma {:induction false} ParseFormattedFields(fs: seq<Field>)
    requires WellFormed(fs)
    ensures ParseFields(FormatFields(fs)) == Ok(fs)
  {
    if fs != [] {
      SplitFormatField(fs[0]);
      ParseFormattedFields(fs[1..]);
      assert [fs[0]] + fs[1..] == fs;
    }
  }

  /** A formatted field holds no SOH when its value holds none. */
  lemma FormatFieldHasNoDelimiter(f: Field)
    requires SOH !in f.value
    ensures SOH !in FormatField(f)
  {
    var t := FormatInt(f.tag);
    assert SOH !in t;
  }

  lemma {:induction false} FormattedFieldsHaveNoDelimiter(fs: seq<Field>)
    requires WellFormed(fs)
    ensures forall k :: 0 <= k < |fs| ==> SOH !in FormatFields(fs)[k]
  {
    if fs != [] {
      FormatFieldHasNoDelimiter(fs[0]);
      FormattedFieldsHaveNoDelimiter(fs[1..]);
    }
  }

  /**
   * The segments of an encoded field list are the formatted fields, whatever
   * SOH-free text follows them.
   */
  lemma SegmentsOfEncode(fs: seq<Field>, t: string)
    requires WellFormed(fs) && SOH !in t
    ensures Segments(Encode(fs) + t) == FormatFields(fs)
    ensures ParseFields(Segments(Encode(fs) + t)) == Ok(fs)
  {
    var segs := FormatFields(fs);
    FormattedFieldsHaveNoDelimiter(fs);
    SegmentsOfTerminated(segs, t);
    ParseFormattedFields(fs);
  }

  // ---------------------------------------------------------------------
  // FIX Boolean values

  /** The `"Y"` / `"N"` switch of the boolean accessors; null or any other text is an invalid cast. */
  function YesNo(text: Option<string>): (r: Result<bool, Exception>)
    ensures r == Ok(true) <==> text == Some("Y")
    ensures r == Ok(false) <==> text == Some("N")
    ensures r.Err? ==> r.error == InvalidCast
  {
    if text == Some("Y") then Ok(true)
    else if text == Some("N") then Ok(false)
    else Err(InvalidCast)
  }

  function FormatBoolean(b: bool): string
  {
    if b then "Y" else "N"
  }

  /** `YesNo` accepts exactly the two FIX Boolean texts, and inverts `FormatBoolean`. */
  lemma YesNoInvertsFormat(text: Option<string>, b: bool)
    ensures YesNo(Some(FormatBoolean(b))) == Ok(b)
    ensures YesNo(text) == Ok(b) <==> text == Some(FormatBoolean(b))
    ensures YesNo(text).Err? ==> YesNo(text).error == InvalidCast
  {
  }
}
