/**
 * The KV secret format (pkg/gosecret/secrets/kv.go) as values: the secret's state, the
 * read-only lookups and the value-level effect of each mutator, the wire form written by
 * `Bytes`, the line-oriented reading done by `ParseKV`, and the round trip between them.
 */
module KVFormat {
  import opened Wrappers
  import opened Errors
  import opened Strings

  /** A KV secret: lower-cased key -> its values in order, plus the free-text body. */
  datatype KVValue = KVValue(data: map<string, seq<string>>, body: string)

  const Empty := KVValue(map[], "")

  /** Go's `m[key]` on a `map[string][]string`: a missing key reads as the empty slice. */
  function Lookup(data: map<string, seq<string>>, key: string): seq<string>
  {
    if key in data then data[key] else []
  }

  // ---------------------------------------------------------------------------------
  // Read-only lookups.

  /** `KV.Values`: every value of the lower-cased key, and whether the key is present. */
  function Values(v: KVValue, key: string): (r: (seq<string>, bool))
    ensures r.1 <==> Lower(key) in v.data
    ensures r.1 ==> r.0 == v.data[Lower(key)]
    ensures !r.1 ==> r.0 == []
  {
    var k := Lower(key);
    if k in v.data then (v.data[k], true) else ([], false)
  }

  /**
   * `KV.Get`: the first of the key's values. Go indexes `v[0]` unchecked, so a present key
   * with an empty value list is a caller error (a panic), hence the precondition.
   */
  function Get(v: KVValue, key: string): (r: (string, bool))
    requires Lower(key) in v.data ==> |v.data[Lower(key)]| > 0
    ensures r.1 == Values(v, key).1
    ensures r.1 ==> r.0 == Values(v, key).0[0]
    ensures !r.1 ==> r.0 == ""
  {
    var k := Lower(key);
    if k in v.data then (v.data[k][0], true) else ("", false)
  }

  /** `KV.Body` */
  function Body(v: KVValue): string
  {
    v.body
  }

  // ---------------------------------------------------------------------------------
  // What each mutator does to the state.

  /** `KV.Set`: one value for the lower-cased key, refused when the key already has several. */
  function SetKey(v: KVValue, key: string, value: string): (r: Result<KVValue, Error>)
    ensures r.Err? <==> Lower(key) in v.data && |v.data[Lower(key)]| > 1
    ensures r.Err? ==> r.error == MultipleValues(Lower(key))
    ensures r.Ok? ==> Values(r.value, key) == ([value], true) && r.value.body == v.body
    ensures r.Ok? ==> forall k :: k != Lower(key) ==>
                        (k in r.value.data <==> k in v.data) && Lookup(r.value.data, k) == Lookup(v.data, k)
  {
    var k := Lower(key);
    if k in v.data && |v.data[k]| > 1 then Err(MultipleValues(k))
    else Ok(v.(data := v.data[k := [value]]))
  }

  /** `KV.Add`: the value goes to the end of the lower-cased key's list. */
  function AddValue(v: KVValue, key: string, value: string): (r: KVValue)
    ensures Values(r, key) == (Lookup(v.data, Lower(key)) + [value], true)
    ensures r.body == v.body
    ensures forall k :: k != Lower(key) ==> (k in r.data <==> k in v.data) && Lookup(r.data, k) == Lookup(v.data, k)
  {
    var k := Lower(key);
    v.(data := v.data[k := Lookup(v.data, k) + [value]])
  }

  /** `KV.Del`: the lower-cased key goes with all its values; reports whether it was there. */
  function DelKey(v: KVValue, key: string): (r: (KVValue, bool))
    ensures r.1 <==> Lower(key) in v.data
    ensures Values(r.0, key) == ([], false)
    ensures r.0.body == v.body
    ensures forall k :: k != Lower(key) ==> (k in r.0.data <==> k in v.data) && Lookup(r.0.data, k) == Lookup(v.data, k)
  {
    var k := Lower(key);
    (v.(data := v.data - {k}), k in v.data)
  }

  /** `KV.Write`: appends to the body and reports the number of bytes taken. */
  function WriteBody(v: KVValue, buf: string): (r: (KVValue, nat))
    ensures r.0.data == v.data && r.1 == Utf8Len(buf)
    ensures |r.0.body| == |v.body| + |buf| && r.0.body[..|v.body|] == v.body && r.0.body[|v.body|..] == buf
  {
    (v.(body := v.body + buf), Utf8Len(buf))
  }

  /** The count `Write` reports is the number of bytes by which the body grew. */
  lemma WriteCountsBytes(v: KVValue, buf: string)
    ensures Utf8Len(WriteBody(v, buf).0.body) == Utf8Len(v.body) + WriteBody(v, buf).1
    ensures |buf| <= WriteBody(v, buf).1 <= 4 * |buf|
    ensures WriteBody(v, buf).1 == |buf| <==> Ascii(buf)
  {
    Utf8LenConcat(v.body, buf);
    Utf8LenBounds(buf);
  }

  /** `Body` changes only through `Write`: the key operations keep it, `Write` extends it. */
  lemma BodyKeptByKeyOps(v: KVValue, key: string, value: string, buf: string)
    ensures SetKey(v, key, value).Ok? ==> Body(SetKey(v, key, value).value) == Body(v)
    ensures Body(AddValue(v, key, value)) == Body(v)
    ensures Body(DelKey(v, key).0) == Body(v)
    ensures Body(WriteBody(v, buf).0) == Body(v) + buf
  {
  }

  lemma SetThenGet(v: KVValue, key: string, value: string)
    requires SetKey(v, key, value).Ok?
    ensures Get(SetKey(v, key, value).value, key) == (value, true)
  {
  }

  /** A second `Set` with the same value changes nothing. */
  lemma SetIdempotent(v: KVValue, key: string, value: string)
    requires SetKey(v, key, value).Ok?
    ensures SetKey(SetKey(v, key, value).value, key, value) == SetKey(v, key, value)
  {
    var k := Lower(key);
    assert v.data[k := [value]][k := [value]] == v.data[k := [value]];
  }

  /** After `Add`, `Set` on the same key is refused exactly when the key held a value before. */
  lemma AddThenSet(v: KVValue, key: string, x: string, y: string)
    ensures SetKey(AddValue(v, key, x), key, y).Err? <==> |Lookup(v.data, Lower(key))| >= 1
  {
  }

  // ---------------------------------------------------------------------------------
  // The wire form written by `Bytes`.

  /** The lines of one key: `key: value` per value, joined by "\n", without a final "\n". */
  function KeyLines(key: string, vals: seq<string>): string
  {
    if |vals| == 0 then ""
    else key + ": " + vals[0] + (if |vals| > 1 then "\n" else "") + KeyLines(key, vals[1..])
  }

  /**
   * What `Bytes` writes for the keys `keys` (in that order) and then the body: the line
   * terminator after a key's last line is written only when a body or another key follows.
   */
  function SerializeFrom(keys: seq<string>, data: map<string, seq<string>>, body: string): string
  {
    if |keys| == 0 then body
    else if keys[0] !in data then SerializeFrom(keys[1..], data, body)
    else
      KeyLines(keys[0], data[keys[0]]) + (if body != "" || |keys| > 1 then "\n" else "")
      + SerializeFrom(keys[1..], data, body)
  }

  /**
   * One round of the key loop of `Bytes`: what it appends to `before` for the first key
   * (nothing for a key without values; its lines, then "\n" unless they are the last thing
   * written) leaves the rest of the keys to serialise.
   */
  lemma SerializeStep(before: string, after: string, keys: seq<string>, data: map<string, seq<string>>, body: string)
    requires |keys| > 0
    requires keys[0] !in data ==> after == before
    requires keys[0] in data && (body != "" || |keys| > 1) ==>
               after == before + KeyLines(keys[0], data[keys[0]]) + "\n"
    requires keys[0] in data && !(body != "" || |keys| > 1) ==>
               after == before + KeyLines(keys[0], data[keys[0]])
    ensures after + SerializeFrom(keys[1..], data, body) == before + SerializeFrom(keys, data, body)
  {
    if keys[0] in data {
      var k, r := KeyLines(keys[0], data[keys[0]]), SerializeFrom(keys[1..], data, body);
      if body != "" || |keys| > 1 {
        Assoc(before, k + "\n", r);
        Assoc(before, k, "\n");
      } else {
        Assoc(before, k + "", r);
        assert k + "" == k;
      }
    }
  }

  /** `KeyLines` unfolded once, after any `before`. */
  lemma KeyLinesHead(before: string, key: string, vals: seq<string>)
    requires |vals| > 0
    ensures |vals| > 1 ==>
              before + KeyLines(key, vals) == before + key + ": " + vals[0] + "\n" + KeyLines(key, vals[1..])
    ensures |vals| == 1 ==>
              before + KeyLines(key, vals) == before + key + ": " + vals[0] && KeyLines(key, vals[1..]) == ""
  {
    var sep := if |vals| > 1 then "\n" else "";
    var r := KeyLines(key, vals[1..]);
    assert KeyLines(key, vals) == key + ": " + vals[0] + sep + r;
    Assoc(before, key + ": " + vals[0] + sep, r);
    Assoc(before, key + ": " + vals[0], sep);
    Assoc(before, key + ": ", vals[0]);
    Assoc(before, key, ": ");
    if |vals| == 1 {
      assert r == "";
      assert before + key + ": " + vals[0] + sep + r == before + key + ": " + vals[0];
    }
  }

  /** The bytes of a KV secret: its keys in ascending order, then its body. */
  ghost function Serialize(v: KVValue): string
  {
    SerializeFrom(SortedElems(v.data.Keys), v.data, v.body)
  }

  lemma SerializeWithoutKeys(v: KVValue)
    requires v.data == map[]
    ensures Serialize(v) == v.body
  {
    assert SortedElems(v.data.Keys) == [];
  }

  // ---------------------------------------------------------------------------------
  // The reading done by `ParseKV`.

  /** Length of the first line of `s`, its "\n" included (`bufio.Reader.ReadString('\n')`). */
  function LineLen(s: string): (n: nat)
    requires |s| > 0
    ensures 0 < n <= |s|
    ensures forall j :: 0 <= j < n - 1 ==> s[j] != '\n'
    ensures n < |s| ==> s[n - 1] == '\n'
  {
    var i := IndexOf(s, '\n');
    if i < |s| then i + 1 else |s|
  }

  /** One more value at the end of `key`'s list. */
  function AddPair(acc: KVValue, key: string, value: string): KVValue
  {
    acc.(data := acc.data[key := Lookup(acc.data, key) + [value]])
  }

  /**
   * The pair on a line that holds a ':': trailing "\n"s dropped, cut at the first ':', the
   * key trimmed and lower-cased, the value trimmed (`strings.SplitN(line, ":", 2)`).
   */
  function SplitPair(line: string): (string, string)
    requires ':' in line
  {
    var l := TrimRightChar(line, '\n');
    var i := IndexOf(l, ':');
    ColonKept(line);
    (Lower(TrimSpace(l[..i])), TrimSpace(l[i + 1..]))
  }

  /**
   * One line of input: a line with a ':' adds its pair; any other line, its "\n" included,
   * goes to the body.
   */
  function ParseLine(acc: KVValue, line: string): KVValue
  {
    if ':' !in line then acc.(body := acc.body + line)
    else AddPair(acc, SplitPair(line).0, SplitPair(line).1)
  }

  /** Dropping the trailing "\n"s of a line keeps its ':'. */
  lemma ColonKept(line: string)
    requires ':' in line
    ensures IndexOf(TrimRightChar(line, '\n'), ':') < |TrimRightChar(line, '\n')|
  {
    var j :| 0 <= j < |line| && line[j] == ':';
    assert TrimRightChar(line, '\n')[j] == ':';
  }

  /** The rest of the input `s`, read line by line into `acc`. */
  function ParseFrom(s: string, acc: KVValue): KVValue
    decreases |s|
  {
    if |s| == 0 then acc
    else
      var n := LineLen(s);
      ParseFrom(s[n..], ParseLine(acc, s[..n]))
  }

  /** The KV secret that `ParseKV` reads from `input`; reading from memory never fails. */
  function ParseKVValue(input: string): KVValue
  {
    ParseFrom(input, Empty)
  }

  /** Input without any ':' is all body, in order, and gives no keys. */
  lemma {:induction false} ParseBodyOnly(s: string, acc: KVValue)
    requires ':' !in s
    ensures ParseFrom(s, acc) == acc.(body := acc.body + s)
    decreases |s|
  {
    if |s| > 0 {
      var n := LineLen(s);
      var line, rest := s[..n], s[n..];
      Absent(s, n, ':');
      calc {
        ParseFrom(s, acc);
        ParseFrom(rest, ParseLine(acc, line));
        ParseFrom(rest, acc.(body := acc.body + line));
        { ParseBodyOnly(rest, acc.(body := acc.body + line)); }
        acc.(body := acc.body + line + rest);
        { assert acc.body + line + rest == acc.body + s; }
        acc.(body := acc.body + s);
      }
    }
  }

  /** Zero key/value lines still give a KV secret: no keys, and the whole input as body. */
  lemma NoPairsAllBody(input: string)
    requires ':' !in input
    ensures ParseKVValue(input) == KVValue(map[], input)
  {
    ParseBodyOnly(input, Empty);
  }

  /** Splitting at line boundaries: reading `x + y` is reading `x`, then `y`. */
  lemma {:induction false} ParseConcat(x: string, y: string, acc: KVValue)
    requires |x| == 0 || x[|x| - 1] == '\n'
    ensures ParseFrom(x + y, acc) == ParseFrom(y, ParseFrom(x, acc))
    decreases |x|
  {
    if |x| > 0 {
      var n := LineLen(x);
      var m := LineLen(x + y);
      assert (x + y)[n - 1] == '\n';
      assert m == n by {
        assert forall j :: 0 <= j < n - 1 ==> (x + y)[j] == x[j];
      }
      assert (x + y)[..n] == x[..n];
      assert (x + y)[n..] == x[n..] + y;
      ParseConcat(x[n..], y, ParseLine(acc, x[..n]));
    } else {
      assert x + y == y;
    }
  }

  // ---------------------------------------------------------------------------------
  // Round trip: `ParseKV(Bytes(k))` gives back `k` for canonical secrets.

  /**
   * A key that survives writing and reading: no ':' or "\n", trimmed, lower case, and
   * ASCII, the only text on which `Lower` is `strings.ToLower`.
   */
  predicate KeyOk(k: string)
  {
    ':' !in k && '\n' !in k && Trimmed(k) && Ascii(k) && Lower(k) == k
  }

  /** A value that survives writing and reading: no "\n", trimmed. */
  predicate ValueOk(x: string)
  {
    '\n' !in x && Trimmed(x)
  }

  predicate Canonical(v: KVValue)
  {
    && (forall k :: k in v.data ==> KeyOk(k) && |v.data[k]| > 0)
    && (forall k, x :: k in v.data && x in v.data[k] ==> ValueOk(x))
    && ':' !in v.body
  }

  lemma TrimLineEnd(line: string, sep: string)
    requires |line| > 0 && line[|line| - 1] != '\n' && (sep == "\n" || sep == "")
    ensures TrimRightChar(line + sep, '\n') == line
  {
    if sep == "\n" {
      assert (line + sep)[..|line + sep| - 1] == line;
    } else {
      assert line + sep == line;
    }
  }

  lemma FirstColon(k: string, tail: string)
    requires ':' !in k
    ensures IndexOf(k + ":" + tail, ':') == |k|
  {
    var s := k + ":" + tail;
    assert s[|k|] == ':';
    assert forall j :: 0 <= j < |k| ==> s[j] == k[j];
  }

  /** The pieces `SplitPair` cuts a written `key: value` line into. */
  lemma PairLinePieces(k: string, x: string, sep: string)
    requires KeyOk(k) && ValueOk(x) && (sep == "\n" || sep == "")
    ensures ':' in k + ": " + x + sep
    ensures TrimRightChar(k + ": " + x + sep, '\n') == k + ": " + x
    ensures IndexOf(k + ": " + x, ':') == |k|
    ensures (k + ": " + x)[..|k|] == k && (k + ": " + x)[|k| + 1..] == " " + x
  {
    var line := k + ": " + x;
    assert line == k + ":" + (" " + x);
    assert line + sep == k + ": " + x + sep;
    assert (line + sep)[|k|] == ':';
    assert |line| > 0 && line[|line| - 1] != '\n' by {
      if |x| > 0 {
        assert line[|line| - 1] == x[|x| - 1];
        assert x[|x| - 1] in x;
      }
    }
    TrimLineEnd(line, sep);
    FirstColon(k, " " + x);
  }

  lemma PairLine(acc: KVValue, k: string, x: string, sep: string)
    requires KeyOk(k) && ValueOk(x) && (sep == "\n" || sep == "")
    ensures ParseLine(acc, k + ": " + x + sep) == AddPair(acc, k, x)
  {
    PairLinePieces(k, x, sep);
    TrimSpaceOfTrimmed(k);
    TrimSpaceOfTrimmed(x);
  }

  /** One `key: value` line followed by its terminator (or by the end of input). */
  lemma ParsePairLine(acc: KVValue, k: string, x: string, sep: string, rest: string)
    requires KeyOk(k) && ValueOk(x)
    requires sep == "\n" || (sep == "" && rest == "")
    ensures ParseFrom(k + ": " + x + sep + rest, acc) == ParseFrom(rest, AddPair(acc, k, x))
  {
    var line := k + ": " + x;
    var s := line + sep + rest;
    assert s == k + ": " + x + sep + rest;
    var n := LineLen(s);
    assert forall j :: 0 <= j < |line| ==> s[j] == line[j];
    assert n == |line| + |sep| by {
      if sep == "\n" {
        assert s[|line|] == '\n';
      }
    }
    assert s[..n] == line + sep;
    assert s[n..] == rest;
    PairLine(acc, k, x, sep);
  }

  lemma KeyLinesSingle(k: string, vs: seq<string>)
    requires |vs| == 1
    ensures KeyLines(k, vs) == k + ": " + vs[0]
  {
    assert KeyLines(k, vs[1..]) == "";
  }

  lemma KeyLinesCons(k: string, vs: seq<string>, sep: string, rest: string)
    requires |vs| > 1
    ensures KeyLines(k, vs) + sep + rest == k + ": " + vs[0] + "\n" + (KeyLines(k, vs[1..]) + sep + rest)
  {
  }

  lemma AddPairThenAll(acc: KVValue, k: string, vs: seq<string>)
    requires |vs| > 0
    ensures
      var acc' := AddPair(acc, k, vs[0]);
      acc'.(data := acc'.data[k := Lookup(acc'.data, k) + vs[1..]])
      == acc.(data := acc.data[k := Lookup(acc.data, k) + vs])
  {
    assert vs == [vs[0]] + vs[1..];
    assert (Lookup(acc.data, k) + [vs[0]]) + vs[1..] == Lookup(acc.data, k) + vs;
  }

  /** All values of one key, in order, as `Bytes` writes them. */
  lemma {:induction false} ParseKeyLines(acc: KVValue, k: string, vs: seq<string>, sep: string, rest: string)
    requires KeyOk(k) && |vs| > 0 && forall x :: x in vs ==> ValueOk(x)
    requires sep == "\n" || (sep == "" && rest == "")
    ensures ParseFrom(KeyLines(k, vs) + sep + rest, acc)
         == ParseFrom(rest, acc.(data := acc.data[k := Lookup(acc.data, k) + vs]))
    decreases |vs|
  {
    if |vs| == 1 {
      KeyLinesSingle(k, vs);
      ParsePairLine(acc, k, vs[0], sep, rest);
      assert [vs[0]] == vs;
    } else {
      var tail := KeyLines(k, vs[1..]) + sep + rest;
      KeyLinesCons(k, vs, sep, rest);
      ParsePairLine(acc, k, vs[0], "\n", tail);
      ParseKeyLines(AddPair(acc, k, vs[0]), k, vs[1..], sep, rest);
      AddPairThenAll(acc, k, vs);
    }
  }

  predicate Distinct(ks: seq<string>)
  {
    forall i, j :: 0 <= i < j < |ks| ==> ks[i] != ks[j]
  }

  /** The part of `d` whose keys are listed in `ks`. */
  function Restrict(d: map<string, seq<string>>, ks: seq<string>): map<string, seq<string>>
  {
    map k | k in d && k in ks :: d[k]
  }

  lemma RestrictCons(a: map<string, seq<string>>, d: map<string, seq<string>>, ks: seq<string>)
    requires |ks| > 0 && ks[0] in d
    ensures a[ks[0] := d[ks[0]]] + Restrict(d, ks[1..]) == a + Restrict(d, ks)
  {
    assert forall k :: k in ks <==> k == ks[0] || k in ks[1..] by {
      assert ks == [ks[0]] + ks[1..];
    }
  }

  lemma SerializeCons(ks: seq<string>, d: map<string, seq<string>>, b: string)
    requires |ks| > 0 && ks[0] in d
    ensures var sep := if b != "" || |ks| > 1 then "\n" else "";
            && SerializeFrom(ks, d, b) == KeyLines(ks[0], d[ks[0]]) + sep + SerializeFrom(ks[1..], d, b)
            && (sep == "" ==> SerializeFrom(ks[1..], d, b) == "")
  {
  }

  lemma ParseSerializedBody(d: map<string, seq<string>>, b: string, acc: KVValue)
    requires ':' !in b
    ensures ParseFrom(SerializeFrom([], d, b), acc) == KVValue(acc.data + Restrict(d, []), acc.body + b)
  {
    ParseBodyOnly(b, acc);
    assert Restrict(d, []) == map[];
  }

  lemma {:induction false} ParseSerializedFrom(ks: seq<string>, d: map<string, seq<string>>, b: string, acc: KVValue)
    requires Distinct(ks) && forall i :: 0 <= i < |ks| ==> ks[i] in d && ks[i] !in acc.data
    requires Canonical(KVValue(d, b))
    ensures ParseFrom(SerializeFrom(ks, d, b), acc) == KVValue(acc.data + Restrict(d, ks), acc.body + b)
    decreases |ks|
  {
    if |ks| == 0 {
      ParseSerializedBody(d, b, acc);
    } else {
      var k0 := ks[0];
      var sep := if b != "" || |ks| > 1 then "\n" else "";
      var rest := SerializeFrom(ks[1..], d, b);
      var acc' := acc.(data := acc.data[k0 := d[k0]]);
      calc {
        ParseFrom(SerializeFrom(ks, d, b), acc);
        { SerializeCons(ks, d, b); }
        ParseFrom(KeyLines(k0, d[k0]) + sep + rest, acc);
        { ParseKeyLines(acc, k0, d[k0], sep, rest);
          assert Lookup(acc.data, k0) + d[k0] == d[k0]; }
        ParseFrom(rest, acc');
        { ParseSerializedFrom(ks[1..], d, b, acc'); }
        KVValue(acc'.data + Restrict(d, ks[1..]), acc.body + b);
        { RestrictCons(acc.data, d, ks); }
        KVValue(acc.data + Restrict(d, ks), acc.body + b);
      }
    }
  }

  /** The sorted key list has no repeats and lists only keys of the map. */
  lemma SortedKeys(d: map<string, seq<string>>)
    ensures Distinct(SortedElems(d.Keys))
    ensures forall i :: 0 <= i < |SortedElems(d.Keys)| ==> SortedElems(d.Keys)[i] in d
    ensures Restrict(d, SortedElems(d.Keys)) == d
  {
    var ks := SortedElems(d.Keys);
    forall i, j | 0 <= i < j < |ks| ensures ks[i] != ks[j] {
      LessIrreflexive(ks[i]);
    }
    forall i | 0 <= i < |ks| ensures ks[i] in d {
      assert ks[i] in Elems(ks);
    }
    forall k | k in d ensures k in ks {
      assert k in Elems(ks);
    }
  }

  lemma UnionWithEmpty(d: map<string, seq<string>>)
    ensures map[] + d == d
  {
  }

  /** Reading the lines of all keys, in sorted order, and then the body, from nothing. */
  lemma ParseSortedKeys(d: map<string, seq<string>>, b: string)
    requires Canonical(KVValue(d, b))
    ensures ParseFrom(SerializeFrom(SortedElems(d.Keys), d, b), Empty) == KVValue(d, b)
  {
    var ks := SortedElems(d.Keys);
    SortedKeys(d);
    ParseSerializedFrom(ks, d, b, Empty);
    UnionWithEmpty(d);
    assert "" + b == b;
  }

  /** `ParseKV(k.Bytes())` recovers `k` when keys and values are canonical and the body has no ':'. */
  lemma RoundTrip(v: KVValue)
    requires Canonical(v)
    ensures ParseKVValue(Serialize(v)) == v
  {
    ParseSortedKeys(v.data, v.body);
  }

  /** Two `key: value` lines and then a body without ':' read as two pairs and that body. */
  lemma TwoPairsThenBody(k1: string, v1: string, k2: string, v2: string, body: string)
    requires KeyOk(k1) && ValueOk(v1) && KeyOk(k2) && ValueOk(v2) && ':' !in body
    ensures ParseKVValue(k1 + ": " + v1 + "\n" + (k2 + ": " + v2 + "\n" + body))
         == KVValue(map[k1 := [v1]][k2 := Lookup(map[k1 := [v1]], k2) + [v2]], body)
  {
    var rest := k2 + ": " + v2 + "\n" + body;
    var acc1 := AddPair(Empty, k1, v1);
    var acc2 := AddPair(acc1, k2, v2);
    calc {
      ParseKVValue(k1 + ": " + v1 + "\n" + rest);
      ParseFrom(k1 + ": " + v1 + "\n" + rest, Empty);
      { ParsePairLine(Empty, k1, v1, "\n", rest); }
      ParseFrom(rest, acc1);
      { ParsePairLine(acc1, k2, v2, "\n", body); }
      ParseFrom(body, acc2);
      { ParseBodyOnly(body, acc2); }
      acc2.(body := "" + body);
    }
    assert Lookup(map[], k1) + [v1] == [v1];
  }

  /** The example of the format's documentation: two pairs, then the body "Yo\nHi". */
  lemma DocExample()
    ensures ParseKVValue("hello: world\ngosecret: secret\nYo\nHi")
         == KVValue(map["hello" := ["world"], "gosecret" := ["secret"]], "Yo\nHi")
  {
    var m := map["hello" := ["world"]];
    calc {
      ParseKVValue("hello: world\ngosecret: secret\nYo\nHi");
      { DocFirstLine(); }
      ParseKVValue("hello" + ": " + "world" + "\n" + ("gosecret" + ": " + "secret" + "\n" + "Yo\nHi"));
      { DocKeys(); DocSecondLine(); TwoPairsThenBody("hello", "world", "gosecret", "secret", "Yo\nHi"); }
      KVValue(m["gosecret" := Lookup(m, "gosecret") + ["secret"]], "Yo\nHi");
      { DocMap(); }
      KVValue(map["hello" := ["world"], "gosecret" := ["secret"]], "Yo\nHi");
    }
  }

  lemma DocMap()
    ensures map["hello" := ["world"]]["gosecret" := Lookup(map["hello" := ["world"]], "gosecret") + ["secret"]]
         == map["hello" := ["world"], "gosecret" := ["secret"]]
  {
    assert "gosecret" != "hello" by { assert "gosecret"[0] != "hello"[0]; }
    assert Lookup(map["hello" := ["world"]], "gosecret") == [];
    assert [] + ["secret"] == ["secret"];
  }

  /** The keys and values of the documentation example are canonical. */
  lemma DocKeys()
    ensures KeyOk("hello") && ValueOk("world")
    ensures KeyOk("gosecret") && ValueOk("secret")
  {
    assert Lower("hello") == "hello";
    assert Lower("gosecret") == "gosecret";
  }

  /** The documentation example, cut into its pieces. */
  lemma DocFirstLine()
    ensures "hello: world\ngosecret: secret\nYo\nHi" == "hello" + ": " + "world" + "\n" + ("gosecret" + ": " + "secret" + "\n" + "Yo\nHi")
  {
  }

  /** The rest of the documentation example, cut at its second line. */
  lemma DocSecondLine()
    ensures ':' !in "Yo\nHi"
  {
  }
}
