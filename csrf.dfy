/**
 * The CSRF synchronizer-token table: at most one token per session, each
 * with an expiry instant 24 hours after it was issued. `random` stands for
 * the 32 bytes of `randomBytes`.
 */
module Csrf {
  import opened Common
  import opened Tokens

  datatype TokenEntry = TokenEntry(token: string, expires: int)

  const TokenLifetimeMs: int := 24 * 60 * 60 * 1000

  /** An entry is stale only once `now` is strictly past its expiry. */
  predicate Stale(e: TokenEntry, now: int) {
    now > e.expires
  }

  /** The entries a cleanup at `now` keeps. */
  function Unexpired(m: map<string, TokenEntry>, now: int): (kept: map<string, TokenEntry>)
    ensures forall sid :: sid in kept <==> sid in m && !Stale(m[sid], now)
    ensures forall sid :: sid in kept ==> kept[sid] == m[sid]
  {
    map sid | sid in m && !Stale(m[sid], now) :: m[sid]
  }

  /** The table after issuing a token for `sessionId` at `now`, cleanup included. */
  function Issued(m: map<string, TokenEntry>, sessionId: string, random: seq<byte>, now: int): (m': map<string, TokenEntry>)
    // The new token replaces any earlier one and survives the cleanup that follows it.
    ensures sessionId in m' && m'[sessionId] == TokenEntry(Hex(random), now + TokenLifetimeMs)
    // Every other session keeps its entry exactly when that entry is not stale.
    ensures forall sid :: sid != sessionId ==>
      (sid in m' <==> sid in m && !Stale(m[sid], now)) && (sid in m' ==> m'[sid] == m[sid])
  {
    Unexpired(m[sessionId := TokenEntry(Hex(random), now + TokenLifetimeMs)], now)
  }

  /** `validateCSRFToken`: the verdict and the table afterwards. */
  function Validation(m: map<string, TokenEntry>, sessionId: string, token: string, now: int)
    : (r: (bool, map<string, TokenEntry>))
    // Accepted exactly when an unexpired entry holds this very token; at
    // `now == expires` the token still counts.
    ensures r.0 <==> sessionId in m && !Stale(m[sessionId], now) && m[sessionId].token == token
    // Only a stale entry is removed, and only the one looked up; nothing else changes.
    ensures sessionId in m && Stale(m[sessionId], now) ==> r.1 == m - {sessionId}
    ensures !(sessionId in m && Stale(m[sessionId], now)) ==> r.1 == m
  {
    if sessionId !in m then (false, m)
    else if now > m[sessionId].expires then (false, m - {sessionId})
    else (m[sessionId].token == token, m)
  }

  /** The token just issued validates for its full lifetime. */
  lemma FreshTokenAccepted(m: map<string, TokenEntry>, sessionId: string, random: seq<byte>, now: int, later: int)
    requires now <= later <= now + TokenLifetimeMs
    ensures Validation(Issued(m, sessionId, random, now), sessionId, Hex(random), later).0
  {
  }

  /** Issuing a token from other random bytes retires the earlier token of that session. */
  lemma EarlierTokenRejected(
    m: map<string, TokenEntry>, sessionId: string, earlier: seq<byte>, random: seq<byte>, now: int, later: int)
    requires earlier != random
    ensures !Validation(Issued(m, sessionId, random, now), sessionId, Hex(earlier), later).0
  {
    if Hex(earlier) == Hex(random) {
      HexInjective(earlier, random);
      assert false;
    }
  }

  /** Issued tokens are 64 lowercase hexadecimal characters. */
  lemma IssuedTokenShape(m: map<string, TokenEntry>, sessionId: string, random: seq<byte>, now: int)
    requires |random| == TokenBytes
    ensures var t := Issued(m, sessionId, random, now)[sessionId].token;
      |t| == 64 && forall i :: 0 <= i < |t| ==> IsLowerHex(t[i])
  {
    TokenShape(random);
  }

  class TokenTable {
    var tokens: map<string, TokenEntry>

    constructor ()
      ensures tokens == map[]
    {
      tokens := map[];
    }

    method GenerateCsrfToken(sessionId: string, random: seq<byte>, now: int) returns (token: string)
      requires |random| == TokenBytes
      modifies this
      ensures token == Hex(random)
      ensures |token| == 64 && forall i :: 0 <= i < |token| ==> IsLowerHex(token[i])
      ensures tokens == Issued(old(tokens), sessionId, random, now)
    {
      token := Hex(random);
      TokenShape(random);
      tokens := tokens[sessionId := TokenEntry(token, now + TokenLifetimeMs)];
      CleanupExpiredTokens(now);
    }

    method ValidateCsrfToken(sessionId: string, token: string, now: int) returns (ok: bool)
      modifies this
      ensures (ok, tokens) == Validation(old(tokens), sessionId, token, now)
    {
      if sessionId !in tokens {
        return false;
      }
      var entry := tokens[sessionId];
      if now > entry.expires {
        tokens := tokens - {sessionId};
        return false;
      }
      return entry.token == token;
    }

    method CleanupExpiredTokens(now: int)
      modifies this
      ensures tokens == Unexpired(old(tokens), now)
    {
      var pending := tokens.Keys;
      while pending != {}
        invariant pending <= old(tokens).Keys
        invariant forall sid :: sid in tokens <==> sid in old(tokens) && (sid in pending || !Stale(old(tokens)[sid], now))
        invariant forall sid :: sid in tokens ==> tokens[sid] == old(tokens)[sid]
        decreases pending
      {
        var sid :| sid in pending;
        if now > tokens[sid].expires {
          tokens := tokens - {sid};
        }
        pending := pending - {sid};
      }
      assert tokens.Keys == Unexpired(old(tokens), now).Keys;
    }
  }
}
