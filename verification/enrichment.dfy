/** Degrade-rather-than-fail enrichment: a local record is combined with one
    best-effort fetch from a sibling service. The fetch is a Feign client
    call; here it is a total function from the key to what the call did, so
    that a raised exception is a value the model can reason about. */
module Enrichment {

  /** What one remote call did: it threw, or it returned a value. */
  datatype Outcome<+V> = Raised | Returned(value: V)

  /** The related part of an enriched response: the fetched value, or the
      placeholder that replaces it when the call threw. The placeholder is
      sent as the one-entry JSON object {"error": error}. */
  datatype Related<+V> = Fetched(value: V) | Unavailable(error: string)

  /** A result together with the keys the remote call was invoked with, in
      call order: the model's record of how often, and with what, the
      sibling service was contacted. */
  datatype Traced<+T, +K> = Traced(result: T, calls: seq<K>)

  /** One guarded call, `try { x = client.get(key); } catch (Exception e)
      { x = Map.of("error", marker); }`: the client is invoked exactly once
      with `key`, a returned value is passed through, and a raised
      exception becomes the placeholder carrying `marker`. */
  function Enrich<K, V>(key: K, fetch: K -> Outcome<V>, marker: string): (r: Traced<Related<V>, K>)
    ensures r.calls == [key]
    ensures r.result.Fetched? <==> fetch(key).Returned?
    ensures fetch(key).Returned? ==> r.result.value == fetch(key).value
    ensures fetch(key).Raised? ==> r.result.error == marker
  {
    var related := match fetch(key)
      case Returned(v) => Fetched(v)
      case Raised => Unavailable(marker);
    Traced(related, [key])
  }

  /** Reads back from a response what the remote call did */
  function Recover<V>(r: Related<V>): Outcome<V> {
    match r
    case Fetched(v) => Returned(v)
    case Unavailable(_) => Raised
  }

  /** The degraded state is visible, not hidden: the response determines
      exactly what the remote call did. */
  lemma EnrichIsFaithful<K, V>(key: K, fetch: K -> Outcome<V>, marker: string)
    ensures Recover(Enrich(key, fetch, marker).result) == fetch(key)
  {
  }
}
