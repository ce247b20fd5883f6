/**
 * The KV secret as the object the program mutates (pkg/gosecret/secrets/kv.go): its
 * fields, the in-place mutators, and the loops of `Keys`, `Bytes` and `ParseKV`, each
 * proved against the value-level definitions of module KVFormat.
 */
module Secrets {
  import opened Wrappers
  import opened Errors
  import opened Strings
  import opened KVFormat

  class KV {
    var data: map<string, seq<string>>
    var body: string
    var fromMime: bool

    /** The secret's state as a value. */
    function Value(): KVValue
      reads this
    {
      KVValue(data, body)
    }

    /** `NewKV`: no keys, empty body. */
    constructor ()
      ensures Value() == Empty && !fromMime
    {
      data := map[];
      body := "";
      fromMime := false;
    }

    /** `NewKVWithData`: the pairs are copied in, so the secret does not share the caller's map. */
    constructor WithData(kvps: map<string, seq<string>>, body: string, converted: bool)
      ensures Value() == KVValue(kvps, body) && fromMime == converted
    {
      data := kvps;
      this.body := body;
      fromMime := converted;
    }

    /** `Keys`: every key once, collected in any order, then sorted. */
    method Keys() returns (keys: seq<string>)
      ensures keys == SortedElems(data.Keys)
    {
      keys := SortedSlice(data.Keys);
    }

    /** `Bytes`: the keys in order, each value on its own `key: value` line, then the body. */
    method Bytes() returns (out: string)
      ensures out == Serialize(Value())
    {
      var keys := Keys();
      var buf := WriteKeys(keys);
      out := buf + body;
    }

    /** The key loop of `Bytes` over `keys`, which are as many as the secret's keys. */
    method WriteKeys(keys: seq<string>) returns (buf: string)
      requires |keys| == |SortedElems(data.Keys)|
      ensures buf + body == SerializeFrom(keys, data, body)
    {
      buf := "";
      var ik := 0;
      var todo := keys;
      while |todo| > 0
        invariant ik + |todo| == |keys|
        invariant buf + SerializeFrom(todo, data, body) == SerializeFrom(keys, data, body)
      {
        buf := WriteEntry(buf, todo, ik);
        ik, todo := ik + 1, todo[1..];
      }
    }

    /**
     * One round of the key loop of `Bytes`: the lines of the key `todo[0]`, which is the
     * `ik`-th key, followed by "\n" unless they are the last thing written.
     */
    method WriteEntry(buf: string, todo: seq<string>, ik: nat) returns (next: string)
      requires |todo| > 0 && ik + |todo| == |SortedElems(data.Keys)|
      ensures next + SerializeFrom(todo[1..], data, body) == buf + SerializeFrom(todo, data, body)
    {
      var key := todo[0];
      next := buf;
      if key in data {
        next := WriteKeyLines(buf, key, data[key]);
        var again := Keys();
        if body != "" || ik < |again| - 1 {
          next := next + "\n";
        }
      }
      SerializeStep(buf, next, todo, data, body);
    }

    /** `Set`: the lower-cased key gets exactly one value, unless it already holds several. */
    method Set(key: string, value: string) returns (err: Option<Error>)
      modifies this
      ensures SetKey(old(Value()), key, value).Ok? ==>
                err == None && Value() == SetKey(old(Value()), key, value).value
      ensures SetKey(old(Value()), key, value).Err? ==>
                err == Some(SetKey(old(Value()), key, value).error) && Value() == old(Value())
      ensures fromMime == old(fromMime)
    {
      var k := Lower(key);
      if k in data && |data[k]| > 1 {
        return Some(MultipleValues(k));
      }
      data := data[k := [value]];
      return None;
    }

    /** `Add`: the value goes after the lower-cased key's earlier values; never fails. */
    method Add(key: string, value: string) returns (err: Option<Error>)
      modifies this
      ensures err == None && Value() == AddValue(old(Value()), key, value)
      ensures fromMime == old(fromMime)
    {
      var k := Lower(key);
      data := data[k := Lookup(data, k) + [value]];
      return None;
    }

    /** `Del`: the lower-cased key leaves with all its values; reports whether it was there. */
    method Del(key: string) returns (found: bool)
      modifies this
      ensures (Value(), found) == DelKey(old(Value()), key)
      ensures fromMime == old(fromMime)
    {
      var k := Lower(key);
      found := k in data;
      data := data - {k};
    }

    /** `Write`: the buffer goes to the end of the body; reports its byte length, never fails. */
    method Write(buf: string) returns (n: nat, err: Option<Error>)
      modifies this
      ensures (Value(), n) == WriteBody(old(Value()), buf) && err == None
      ensures fromMime == old(fromMime)
    {
      body := body + buf;
      n := Utf8Len(buf);
      err := None;
    }

    /** `FromMime`: whether the secret was converted from the legacy MIME format. */
    function FromMime(): bool
      reads this
    {
      fromMime
    }

    /**
     * The converted flag `FromMime` reports is the one the secret was made with; editing
     * the pairs or the body never changes it.
     */
    static method FlagSurvivesEdits(kvps: map<string, seq<string>>, body: string, converted: bool,
                                    key: string, value: string, buf: string) returns (r: bool)
      ensures r == converted
    {
      var k := new KV.WithData(kvps, body, converted);
      var _ := k.Set(key, value);
      var _ := k.Add(key, value);
      var _ := k.Del(key);
      var _, _ := k.Write(buf);
      r := k.FromMime();
    }

    /** `SafeStr`: the secret's printable form never shows its contents. */
    function SafeStr(): (r: string)
      ensures r == "(elided)"
    {
      "(elided)"
    }
  }

  /** The inner loop of `Bytes`: one `key: value` line per value, joined by "\n". */
  method WriteKeyLines(start: string, key: string, sv: seq<string>) returns (buf: string)
    ensures buf == start + KeyLines(key, sv)
  {
    buf := start;
    var iv := 0;
    var vals := sv;
    while |vals| > 0
      invariant iv + |vals| == |sv|
      invariant buf + KeyLines(key, vals) == start + KeyLines(key, sv)
    {
      KeyLinesHead(buf, key, vals);
      buf := buf + key + ": " + vals[0];
      if iv < |sv| - 1 {
        buf := buf + "\n";
      }
      iv, vals := iv + 1, vals[1..];
    }
    assert buf + "" == buf;
  }

  /**
   * `ParseKV`: reads the input line by line into a new secret. Reading from memory never
   * fails, so the error is always absent, also when no line holds a key.
   */
  method ParseKV(input: string) returns (k: KV, err: Option<Error>)
    ensures fresh(k) && err == None
    ensures k.Value() == ParseKVValue(input) && !k.fromMime
  {
    k := new KV();
    var sb := "";
    var rest := input;
    while |rest| > 0
      invariant !k.fromMime
      invariant ParseFrom(rest, KVValue(k.data, sb)) == ParseKVValue(input)
      decreases |rest|
    {
      ghost var acc := KVValue(k.data, sb);
      var n := LineLen(rest);
      var line := rest[..n];
      rest := rest[n..];
      if ':' !in line {
        sb := sb + line;
      } else {
        var (key, value) := SplitPair(line);
        k.data := k.data[key := Lookup(k.data, key) + [value]];
      }
      assert KVValue(k.data, sb) == ParseLine(acc, line);
    }
    k.body := sb;
    err := None;
  }
}
