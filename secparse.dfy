/**
 * The parse cascade of pkg/gosecret/secrets/secparse/parse.go. The parsers are tried from
 * the most specific format down: legacy MIME, YAML, KV, plain text. The MIME, YAML and
 * plain parsers are parameters of the model; the KV step is the codec of module KVFormat.
 */
module SecParse {
  import opened Wrappers
  import opened Errors
  import opened KVFormat

  /**
   * A parsed secret. Only the KV payload is modelled in detail; a YAML document and a
   * plain-text secret keep the text they were made from.
   */
  datatype Secret =
    | KVSecret(value: KVValue, fromMime: bool)
    | YamlSecret(doc: string)
    | PlainSecret(text: string)

  /** The parsers the cascade calls but does not define. */
  datatype Parsers = Parsers(
    legacyMime: string -> Result<Secret, Error>,
    yaml: string -> Result<Secret, Error>,
    plain: string -> Secret)

  /**
   * The cascade only asks whether the MIME error is itself a `*secrets.PermanentError`
   * (a type assertion, not `errors.As`), so a wrapped permanent error is not permanent.
   */
  predicate PermanentFailure(r: Result<Secret, Error>)
  {
    r.Err? && r.error.PermanentParse?
  }

  /** A parser miss after which the cascade moves on to the next format. */
  predicate TransientFailure(r: Result<Secret, Error>)
  {
    r.Err? && !r.error.PermanentParse?
  }

  /** `Parse`: the secret and the error the cascade returns for `input`. */
  function Parse(p: Parsers, input: string): (r: (Secret, Option<Error>))
    // MIME wins outright when it succeeds.
    ensures p.legacyMime(input).Ok? ==> r == (p.legacyMime(input).value, None)
    // A permanent MIME error yields the plain secret together with that error.
    ensures PermanentFailure(p.legacyMime(input)) ==>
              r == (p.plain(input), Some(p.legacyMime(input).error))
    // After a transient MIME miss, a YAML success is returned.
    ensures TransientFailure(p.legacyMime(input)) && p.yaml(input).Ok? ==>
              r == (p.yaml(input).value, None)
    // After two misses, the input is read as KV, which never fails.
    ensures TransientFailure(p.legacyMime(input)) && p.yaml(input).Err? ==>
              r == (KVSecret(ParseKVValue(input), false), None)
    // An error comes back exactly when MIME failed permanently, and it is that error.
    ensures r.1.Some? <==> PermanentFailure(p.legacyMime(input))
    ensures r.1.Some? ==> r.1.value.PermanentParse?
  {
    var mime := p.legacyMime(input);
    if mime.Ok? then (mime.value, None)
    else if mime.error.PermanentParse? then (p.plain(input), Some(mime.error))
    else
      var yaml := p.yaml(input);
      if yaml.Ok? then (yaml.value, None)
      else
        // `secrets.ParseKV` on an in-memory buffer reports no error (Secrets.ParseKV).
        var kv: Result<Secret, Error> := Ok(KVSecret(ParseKVValue(input), false));
        if kv.Ok? then (kv.value, None)
        else (p.plain(input), None)
  }

  /** Two parser sets that agree on `input` everywhere but in `yaml`. */
  predicate DifferOnlyInYaml(p: Parsers, q: Parsers, input: string)
  {
    p.legacyMime(input) == q.legacyMime(input) && p.plain(input) == q.plain(input)
  }

  /** Two parser sets that agree on `input` everywhere but in `plain`. */
  predicate DifferOnlyInPlain(p: Parsers, q: Parsers, input: string)
  {
    p.legacyMime(input) == q.legacyMime(input) && p.yaml(input) == q.yaml(input)
  }

  /** After a permanent MIME error neither YAML nor KV is consulted. */
  lemma PermanentSkipsYaml(p: Parsers, q: Parsers, input: string)
    requires DifferOnlyInYaml(p, q, input)
    requires PermanentFailure(p.legacyMime(input))
    ensures Parse(p, input) == Parse(q, input)
  {
  }

  /**
   * The plain parser is consulted only after a permanent MIME error: the final plain
   * fallback of the cascade is unreachable, because the KV step never fails.
   */
  lemma PlainOnlyWhenPermanent(p: Parsers, q: Parsers, input: string)
    requires DifferOnlyInPlain(p, q, input)
    requires !PermanentFailure(p.legacyMime(input))
    ensures Parse(p, input) == Parse(q, input)
  {
  }

  /** Input without a single `key: value` line still comes back as a KV secret, all body. */
  lemma NoPairsStillKV(p: Parsers, input: string)
    requires TransientFailure(p.legacyMime(input)) && p.yaml(input).Err?
    requires ':' !in input
    ensures Parse(p, input) == (KVSecret(KVValue(map[], input), false), None)
  {
    NoPairsAllBody(input);
  }
}
