/** The line-oriented frame codec of utils/message.py: a frame is one
    `key value` line per field, each ended by a newline. `SyncMsg` is the
    progress report an agent sends (`sync`, `script`, `status` fields) and
    `AckMsg` the single-line acknowledgement (`ack`). */
module Message {
  import opened Wrappers
  import opened Errors
  import opened Text

  /** Keyword arguments of `build_msg`, in the order they were supplied. */
  type Fields = seq<(string, string)>

  /** One field as it appears on the wire, without its newline. */
  function FieldLine(key: string, value: string): string {
    key + " " + value
  }

  /** The lines a frame of `fields` should consist of, in field order. */
  function LineSeq(fields: Fields): seq<string> {
    seq(|fields|, i requires 0 <= i < |fields| => FieldLine(fields[i].0, fields[i].1))
  }

  /** `Message.build_msg`: one `key value\n` line per field. */
  function BuildMsg(fields: Fields): (msg: string)
    ensures |fields| == 0 <==> |msg| == 0
    ensures |fields| > 0 ==> msg[|msg| - 1] == '\n'
    decreases |fields|
  {
    if |fields| == 0 then ""
    else FieldLine(fields[0].0, fields[0].1) + "\n" + BuildMsg(fields[1..])
  }

  /** A frame is its lines joined by newlines, with a final empty piece after
      the last newline. */
  lemma {:induction false} BuildMsgIsJoin(fields: Fields)
    ensures BuildMsg(fields) == Join(LineSeq(fields) + [""], '\n')
    decreases |fields|
  {
    if |fields| > 0 {
      BuildMsgIsJoin(fields[1..]);
      var lines := LineSeq(fields) + [""];
      assert lines[1..] == LineSeq(fields[1..]) + [""];
    }
  }

  lemma FieldLineNoNewline(key: string, value: string)
    requires '\n' !in key && '\n' !in value
    ensures '\n' !in FieldLine(key, value)
  {
  }

  /** `build_msg` emits exactly one line per field, in the order supplied:
      splitting the frame at newlines gives the field lines and then the empty
      piece after the final newline. */
  lemma BuildMsgLines(fields: Fields)
    requires forall i :: 0 <= i < |fields| ==> '\n' !in fields[i].0 && '\n' !in fields[i].1
    ensures Split(BuildMsg(fields), '\n') == LineSeq(fields) + [""]
  {
    BuildMsgIsJoin(fields);
    var lines := LineSeq(fields) + [""];
    forall i | 0 <= i < |lines| ensures '\n' !in lines[i] {
      if i < |fields| {
        FieldLineNoNewline(fields[i].0, fields[i].1);
        assert lines[i] == FieldLine(fields[i].0, fields[i].1);
      } else {
        assert lines[i] == "";
      }
    }
    SplitJoin(lines, '\n');
  }

  // ---------------------------------------------------------------------------
  // parse_msg
  // ---------------------------------------------------------------------------

  /** One iteration of the loop in `parse_msg`: lines of at most two characters
      are skipped, any other line must split at its single space into a key and
      a value (Python's `k, v = line.split(' ')` raises otherwise), and a later
      key overwrites an earlier one. */
  function ParseLine(acc: map<string, string>, line: string): (r: Result<map<string, string>, Error>)
    ensures |line| <= 2 ==> r == Success(acc)
    ensures |line| > 2 ==> (r.Success? <==> Occurrences(line, ' ') == 1)
    ensures r.Failure? ==> r.error == Unpack(line)
  {
    if |line| <= 2 then Success(acc)
    else
      var kv := Split(line, ' ');
      SplitLength(line, ' ');
      if |kv| != 2 then Failure(Unpack(line))
      else Success(acc[kv[0] := kv[1]])
  }

  function ParseLines(acc: map<string, string>, lines: seq<string>): (r: Result<map<string, string>, Error>)
    ensures r.Failure? ==> r.error.Unpack?
    decreases |lines|
  {
    if |lines| == 0 then Success(acc)
    else
      var acc' :- ParseLine(acc, lines[0]);
      ParseLines(acc', lines[1..])
  }

  /** `Message.parse_msg`: `None` (here `Success(None)`) when the frame lacks a
      newline or a space; otherwise the mapping built from its lines, or the
      unpacking error of the first line that is not `key value`. */
  function ParseMsg(msg: string): (r: Result<Option<map<string, string>>, Error>)
    ensures r == Success(None) <==> ('\n' !in msg || ' ' !in msg)
    ensures r.Failure? ==> r.error.Unpack?
  {
    if '\n' !in msg || ' ' !in msg then Success(None)
    else
      var args :- ParseLines(map[], Split(msg, '\n'));
      Success(Some(args))
  }

  /** A text that can be a key or a value without breaking the frame. */
  predicate Atom(s: string) {
    ' ' !in s && '\n' !in s
  }

  /** A line `key value` with space-free key and value is read back as that
      pair, provided it is long enough not to be skipped. */
  lemma ParseLineKeyValue(acc: map<string, string>, key: string, value: string)
    requires ' ' !in key && ' ' !in value
    requires |key| + |value| >= 2
    ensures ParseLine(acc, FieldLine(key, value)) == Success(acc[key := value])
  {
    SplitNoSep(value, ' ');
    SplitAfter(key, value, ' ');
  }

  /** A later line with the same key overwrites the earlier value. */
  lemma ParseLaterKeyWins(acc: map<string, string>, key: string, first: string, second: string)
    requires Atom(key) && Atom(first) && Atom(second)
    requires |key| + |first| >= 2 && |key| + |second| >= 2
    ensures ParseLines(acc, [FieldLine(key, first), FieldLine(key, second)]) == Success(acc[key := second])
  {
    var lines := [FieldLine(key, first), FieldLine(key, second)];
    ParseLineKeyValue(acc, key, first);
    ParseLineKeyValue(acc[key := first], key, second);
    assert lines[1..] == [FieldLine(key, second)];
    assert lines[1..][1..] == [];
    assert acc[key := first][key := second] == acc[key := second];
    assert ParseLines(acc[key := first], lines[1..]) == Success(acc[key := second]);
  }

  /** The mapping a field list denotes, later fields overwriting earlier ones
      (keyword arguments never repeat, so for them nothing is overwritten). */
  function ToMap(acc: map<string, string>, fields: Fields): map<string, string>
    decreases |fields|
  {
    if |fields| == 0 then acc
    else ToMap(acc[fields[0].0 := fields[0].1], fields[1..])
  }

  predicate DistinctKeys(fields: Fields) {
    forall i, j :: 0 <= i < j < |fields| ==> fields[i].0 != fields[j].0
  }

  /** With distinct keys, the mapping holds exactly the supplied pairs on top of
      the accumulator. */
  lemma {:induction false} ToMapLookup(acc: map<string, string>, fields: Fields)
    requires DistinctKeys(fields)
    ensures ToMap(acc, fields).Keys == acc.Keys + set i | 0 <= i < |fields| :: fields[i].0
    ensures forall i :: 0 <= i < |fields| ==> ToMap(acc, fields)[fields[i].0] == fields[i].1
    ensures forall k :: k in acc && (forall i :: 0 <= i < |fields| ==> fields[i].0 != k) ==> ToMap(acc, fields)[k] == acc[k]
    decreases |fields|
  {
    if |fields| > 0 {
      var rest := fields[1..];
      assert DistinctKeys(rest) by {
        forall i, j | 0 <= i < j < |rest| ensures rest[i].0 != rest[j].0 {
          assert rest[i] == fields[i + 1] && rest[j] == fields[j + 1];
        }
      }
      var acc' := acc[fields[0].0 := fields[0].1];
      ToMapLookup(acc', rest);
      var keys := set i | 0 <= i < |fields| :: fields[i].0;
      var restKeys := set i | 0 <= i < |rest| :: rest[i].0;
      assert keys == {fields[0].0} + restKeys by {
        forall k | k in keys ensures k in {fields[0].0} + restKeys {
          var i :| 0 <= i < |fields| && fields[i].0 == k;
          if i > 0 {
            assert rest[i - 1].0 == k;
          }
        }
      }
      forall i | 0 <= i < |fields| ensures ToMap(acc, fields)[fields[i].0] == fields[i].1 {
        if i > 0 {
          assert rest[i - 1] == fields[i];
        } else {
          assert forall j :: 0 <= j < |rest| ==> rest[j].0 != fields[0].0 by {
            forall j | 0 <= j < |rest| ensures rest[j].0 != fields[0].0 {
              assert rest[j] == fields[j + 1];
            }
          }
        }
      }
    }
  }

  /** A field list the codec can carry: non-empty, keys and values free of
      spaces and newlines, and every line longer than two characters. */
  predicate Encodable(fields: Fields) {
    && |fields| > 0
    && forall i :: 0 <= i < |fields| ==>
         Atom(fields[i].0) && Atom(fields[i].1) && |fields[i].0| + |fields[i].1| >= 2
  }

  lemma {:induction false} ParseFieldLines(acc: map<string, string>, fields: Fields)
    requires forall i :: 0 <= i < |fields| ==>
               Atom(fields[i].0) && Atom(fields[i].1) && |fields[i].0| + |fields[i].1| >= 2
    ensures ParseLines(acc, LineSeq(fields) + [""]) == Success(ToMap(acc, fields))
    decreases |fields|
  {
    var lines := LineSeq(fields) + [""];
    if |fields| == 0 {
      assert lines == [""];
      assert lines[1..] == [];
    } else {
      ParseLineKeyValue(acc, fields[0].0, fields[0].1);
      assert lines[0] == FieldLine(fields[0].0, fields[0].1);
      assert lines[1..] == LineSeq(fields[1..]) + [""];
      ParseFieldLines(acc[fields[0].0 := fields[0].1], fields[1..]);
    }
  }

  /** The codec round trip: parsing what `build_msg` produced gives back the
      fields. */
  lemma RoundTrip(fields: Fields)
    requires Encodable(fields)
    ensures ParseMsg(BuildMsg(fields)) == Success(Some(ToMap(map[], fields)))
  {
    var msg := BuildMsg(fields);
    var k := fields[0].0;
    var v := fields[0].1;
    assert msg[|k|] == ' ';
    assert msg[|k| + 1 + |v|] == '\n';
    BuildMsgLines(fields);
    ParseFieldLines(map[], fields);
  }

  // ---------------------------------------------------------------------------
  // SyncMsg and AckMsg
  // ---------------------------------------------------------------------------

  /** The process-wide message-id counter of `SyncMsg`: unset until the first
      id is minted, then the last id handed out. */
  datatype IdGen = Uninitialized | Seeded(last: nat)

  const MinSeed := 5000
  const MaxSeed := 50000

  /** `SyncMsg.get_msgid`: the first call seeds the counter with a draw from
      `random.randint(5000, 50000)` (the parameter `draw`; later calls ignore
      it) and every call returns the counter plus one. */
  function NextId(g: IdGen, draw: nat): (r: (nat, IdGen))
    requires g.Seeded? || MinSeed <= draw <= MaxSeed
    ensures r.1 == Seeded(r.0)
    ensures g.Uninitialized? ==> MinSeed + 1 <= r.0 <= MaxSeed + 1
    ensures g.Seeded? ==> r.0 == g.last + 1
  {
    match g
    case Uninitialized => (draw + 1, Seeded(draw + 1))
    case Seeded(n) => (n + 1, Seeded(n + 1))
  }

  /** The ids of `count` successive calls to `get_msgid`. */
  function MintIds(g: IdGen, draw: nat, count: nat): seq<nat>
    requires g.Seeded? || MinSeed <= draw <= MaxSeed
    decreases count
  {
    if count == 0 then []
    else
      var (id, g') := NextId(g, draw);
      [id] + MintIds(g', draw, count - 1)
  }

  /** Successive ids increase by exactly one, and a fresh process's first id
      lies in [5001, 50001]. */
  lemma {:induction false} MintIdsConsecutive(g: IdGen, draw: nat, count: nat)
    requires g.Seeded? || MinSeed <= draw <= MaxSeed
    ensures |MintIds(g, draw, count)| == count
    ensures forall i :: 0 < i < count ==> MintIds(g, draw, count)[i] == MintIds(g, draw, count)[i - 1] + 1
    ensures count > 0 && g.Uninitialized? ==> MinSeed + 1 <= MintIds(g, draw, count)[0] <= MaxSeed + 1
    ensures count > 0 && g.Seeded? ==> MintIds(g, draw, count)[0] == g.last + 1
    decreases count
  {
    if count > 0 {
      var (id, g') := NextId(g, draw);
      MintIdsConsecutive(g', draw, count - 1);
      var ids := MintIds(g, draw, count);
      assert ids == [id] + MintIds(g', draw, count - 1);
      forall i | 0 < i < count ensures ids[i] == ids[i - 1] + 1 {
        if i == 1 {
          assert ids[1] == MintIds(g', draw, count - 1)[0];
        } else {
          assert ids[i] == MintIds(g', draw, count - 1)[i - 1];
          assert ids[i - 1] == MintIds(g', draw, count - 1)[i - 2];
        }
      }
    }
  }

  /** A progress report. `msgid` is kept as the text `build_msg` renders it
      as: the integer an agent minted, or the string a daemon decoded. */
  datatype SyncMsg = SyncMsg(msgid: string, script: string, status: string, finalMsg: bool)

  const SentinelScript := "all"
  const SentinelStatus := "Finished"

  /** Whether a report is the fleet-completion sentinel. */
  predicate IsSentinel(script: string, status: string) {
    script == SentinelScript && status == SentinelStatus
  }

  /** `SyncMsg(script, status)` on the agent: a freshly minted id, and
      `final_msg` left at its default `False`. */
  function NewSyncMsg(id: nat, script: string, status: string): SyncMsg {
    SyncMsg(Dec(id), script, status, false)
  }

  /** `SyncMsg.val`. */
  function SyncVal(m: SyncMsg): string {
    BuildMsg([("sync", m.msgid), ("script", m.script), ("status", m.status)])
  }

  /** `AckMsg(msgid).val`. */
  function AckVal(msgid: string): string {
    BuildMsg([("ack", msgid)])
  }

  /** `SyncMsg.val` is exactly the three lines `sync`, `script`, `status`. */
  lemma SyncValLines(m: SyncMsg)
    requires '\n' !in m.msgid && '\n' !in m.script && '\n' !in m.status
    ensures Split(SyncVal(m), '\n') == ["sync " + m.msgid, "script " + m.script, "status " + m.status, ""]
  {
    var fields := [("sync", m.msgid), ("script", m.script), ("status", m.status)];
    BuildMsgLines(fields);
    var lines := LineSeq(fields);
    assert lines[0] == "sync " + m.msgid;
    assert lines[1] == "script " + m.script;
    assert lines[2] == "status " + m.status;
    assert lines == ["sync " + m.msgid, "script " + m.script, "status " + m.status];
  }

  /** `AckMsg.val` is the single line `ack <id>`. */
  lemma AckValLines(msgid: string)
    requires '\n' !in msgid
    ensures Split(AckVal(msgid), '\n') == ["ack " + msgid, ""]
  {
    BuildMsgLines([("ack", msgid)]);
    assert LineSeq([("ack", msgid)])[0] == "ack " + msgid;
    assert LineSeq([("ack", msgid)]) == ["ack " + msgid];
  }

  /** Whether a decoded frame carries the three report fields with the values
      of `m`. */
  predicate Carries(content: map<string, string>, m: SyncMsg) {
    && "sync" in content && "script" in content && "status" in content
    && m.msgid == content["sync"] && m.script == content["script"] && m.status == content["status"]
  }

  /** `SyncMsg.from_msg`: decodes a frame into a report, with `final_msg` set
      exactly for the sentinel. The lookups raise in Python's evaluation order:
      `script` first, `status` only when the script is `all`, then `sync`,
      `script` and `status` for the constructor call. */
  function FromMsg(msg: string): (r: Result<SyncMsg, Error>)
    ensures r.Success? <==>
              ParseMsg(msg).Success? && ParseMsg(msg).value.Some?
              && var c := ParseMsg(msg).value.value; "sync" in c && "script" in c && "status" in c
    ensures r.Success? ==> Carries(ParseMsg(msg).value.value, r.value)
    ensures r.Success? ==> (r.value.finalMsg <==> IsSentinel(r.value.script, r.value.status))
    ensures ParseMsg(msg) == Success(None) ==> r == Failure(NotAMessage)
  {
    var content :- ParseMsg(msg);
    if content.None? then Failure(NotAMessage)
    else
      var c := content.value;
      if "script" !in c then Failure(MissingField("script"))
      else if c["script"] == SentinelScript && "status" !in c then Failure(MissingField("status"))
      else
        var final := c["script"] == SentinelScript && c["status"] == SentinelStatus;
        if "sync" !in c then Failure(MissingField("sync"))
        else if "status" !in c then Failure(MissingField("status"))
        else Success(SyncMsg(c["sync"], c["script"], c["status"], final))
  }

  /** Decoding what a report encodes to gives the report back, with
      `final_msg` recomputed from its script and status. */
  lemma SyncRoundTrip(m: SyncMsg)
    requires Atom(m.msgid) && Atom(m.script) && Atom(m.status)
    ensures FromMsg(SyncVal(m)) == Success(m.(finalMsg := IsSentinel(m.script, m.status)))
  {
    var fields := [("sync", m.msgid), ("script", m.script), ("status", m.status)];
    RoundTrip(fields);
    var c := ToMap(map[], fields);
    var c1 := map["sync" := m.msgid];
    var c2 := c1["script" := m.script];
    var c3 := c2["status" := m.status];
    assert fields[1..][1..][1..] == [];
    assert c == ToMap(c1, fields[1..]) == ToMap(c2, fields[1..][1..]) == ToMap(c3, []);
    assert Carries(c, m);
  }

  /** Digit strings are atoms, so a minted id always survives the codec. */
  lemma DecIsAtom(n: nat)
    ensures Atom(Dec(n))
  {
    var s := Dec(n);
    assert forall i :: 0 <= i < |s| ==> IsDigit(s[i]);
  }
}
