/**
 * The peer interfaces of geecache/peers.go, `PeerPicker` and `PeerGetter`,
 * and the client side of their one implementation, `httpGetter` of
 * geecache/http.go.
 */
module Peers {
  import opened Wrappers
  import opened Bytes

  /** `httpGetter`: the `PeerGetter` for one peer, which asks that peer's
      pool at `baseUrl` (the peer's address followed by the base path). */
  datatype PeerGetter = HttpGetter(baseUrl: string)

  /** What `PeerPicker.PickPeer(key)` answers: `ok == false`; or `ok ==
      true` with a getter, which is nil when the pool has no getter for the
      owner; or the call panics (on an empty ring). */
  datatype Pick = Declined | Picked(getter: Option<PeerGetter>) | PickPanicked

  /** `url.QueryEscape`, which is not part of this model: any function. */
  type Escape = string -> string

  /** The network round trip of `httpGetter.Get` for a URL: the body of a
      200 response, or the error of the request, of a non-200 status or of
      reading the body. */
  type Fetch = string -> Result<seq<byte>, string>

  /** The URL `httpGetter.Get(group, key)` requests: the base URL, the
      escaped group name, "/" and the escaped key. */
  function Url(g: PeerGetter, escape: Escape, group: string, key: string): string
  {
    g.baseUrl + escape(group) + "/" + escape(key)
  }

  /** `httpGetter.Get(group, key)`: the peer's answer for that URL. */
  function PeerGet(g: PeerGetter, escape: Escape, fetch: Fetch, group: string, key: string): Result<seq<byte>, string>
  {
    fetch(Url(g, escape, group, key))
  }
}
