/**
  The relay-address rewrite of `normalizeUrls` in src/relays.ts: each address
  gets a WebSocket scheme, then goes through `utils.normalizeURL` of the
  nostr-tools library, which is not part of this model and is taken as a
  parameter.
 */
module Relays {

  /** `pat` occurs in `s` starting at position `i`. */
  ghost predicate OccursAt(s: string, pat: string, i: int)
    requires 0 <= i <= |s|
  {
    pat <= s[i..]
  }

  /**
    `s.replace(pat, rep)` with a string pattern and a replacement that holds no
    `$` pattern: the first occurrence of `pat` is replaced by `rep` as it
    stands; without one, `s` is returned as it is. The `$&`, `$$`, `` $` `` and
    `$'` patterns JavaScript expands in a replacement are not interpreted.
   */
  function ReplaceFirst(s: string, pat: string, rep: string): (r: string)
    ensures (forall i :: 0 <= i <= |s| ==> !OccursAt(s, pat, i)) ==> r == s
  {
    if pat <= s then
      assert s[0..] == s;
      assert OccursAt(s, pat, 0);
      rep + s[|pat|..]
    else if |s| == 0 then s
    else
      assert forall i :: 1 <= i <= |s| ==> s[i..] == s[1..][i - 1..];
      assert forall i :: 0 <= i <= |s| - 1 ==> (OccursAt(s[1..], pat, i) <==> OccursAt(s, pat, i + 1));
      assert s == [s[0]] + s[1..];
      [s[0]] + ReplaceFirst(s[1..], pat, rep)
  }

  /** An occurrence in `s[1..]` is an occurrence in `s` one position later. */
  lemma OccursAtShift(s: string, pat: string, j: int)
    requires 0 <= j < |s|
    ensures OccursAt(s[1..], pat, j) <==> OccursAt(s, pat, j + 1)
  {
    assert s[1..][j..] == s[j + 1..];
  }

  /** `ReplaceFirst` replaces exactly the first occurrence of the pattern. */
  lemma {:induction false} ReplaceFirstOccurrence(s: string, pat: string, rep: string, i: int)
    requires 0 <= i <= |s| && OccursAt(s, pat, i)
    requires forall j :: 0 <= j < i ==> !OccursAt(s, pat, j)
    ensures ReplaceFirst(s, pat, rep) == s[..i] + rep + s[i + |pat|..]
  {
    if i == 0 {
      assert s[0..] == s;
    } else {
      assert !(pat <= s) by {
        assert s[0..] == s;
        assert !OccursAt(s, pat, 0);
      }
      var t := s[1..];
      assert OccursAt(t, pat, i - 1) by {
        OccursAtShift(s, pat, i - 1);
      }
      assert forall j :: 0 <= j < i - 1 ==> !OccursAt(t, pat, j) by {
        forall j | 0 <= j < i - 1
          ensures !OccursAt(t, pat, j)
        {
          OccursAtShift(s, pat, j);
        }
      }
      ReplaceFirstOccurrence(t, pat, rep, i - 1);
      SpliceAfterHead(s, rep, i, |pat|);
      calc {
        ReplaceFirst(s, pat, rep);
        [s[0]] + ReplaceFirst(t, pat, rep);
        [s[0]] + (t[..i - 1] + rep + t[i - 1 + |pat|..]);
        s[..i] + rep + s[i + |pat|..];
      }
    }
  }

  /** Splicing into `s[1..]` and putting `s[0]` back is splicing into `s`. */
  lemma SpliceAfterHead(s: string, rep: string, i: int, n: nat)
    requires 0 < i && i + n <= |s|
    ensures [s[0]] + (s[1..][..i - 1] + rep + s[1..][i - 1 + n..]) == s[..i] + rep + s[i + n..]
  {
    assert s[1..][..i - 1] == s[1..i];
    assert s[1..][i - 1 + n..] == s[i + n..];
    assert [s[0]] + s[1..i] == s[..i];
  }

  /** The address already names a WebSocket scheme. */
  predicate HasWsScheme(u: string) {
    "ws://" <= u || "wss://" <= u
  }

  /**
    The scheme step of `normalizeUrls`: `http://` becomes `ws://`, `https://`
    becomes `wss://`, an address without a WebSocket scheme gets `wss://` in
    front, and one with a WebSocket scheme is left alone.
   */
  function WithWsScheme(u: string): (r: string)
    ensures HasWsScheme(r)
  {
    if "http://" <= u then ReplaceFirst(u, "http://", "ws://")
    else if "https://" <= u then ReplaceFirst(u, "https://", "wss://")
    else if !HasWsScheme(u) then "wss://" + u
    else u
  }

  /**
    `normalizeUrls`: the scheme step and then `canonicalize` (nostr-tools'
    `normalizeURL`) on every address.
   */
  function NormalizeUrls(urls: seq<string>, canonicalize: string -> string): (r: seq<string>)
    ensures |r| == |urls|
    ensures forall i :: 0 <= i < |urls| ==> r[i] == canonicalize(WithWsScheme(urls[i]))
  {
    if |urls| == 0 then []
    else [canonicalize(WithWsScheme(urls[0]))] + NormalizeUrls(urls[1..], canonicalize)
  }

  /** The address without its scheme, when it has one of the four the rewrite knows. */
  function StripScheme(u: string): string {
    if "http://" <= u then u[7..]
    else if "https://" <= u then u[8..]
    else if "ws://" <= u then u[5..]
    else if "wss://" <= u then u[6..]
    else u
  }

  /** The address names a plain (non-TLS) scheme. */
  predicate Insecure(u: string) {
    "http://" <= u || "ws://" <= u
  }

  /**
    No address starts with two of the four schemes: in particular the
    `https://` branch is never shadowed by the `http://` one.
   */
  lemma SchemesDisjoint(u: string)
    ensures !("http://" <= u && "https://" <= u)
    ensures !("ws://" <= u && "wss://" <= u)
    ensures HasWsScheme(u) ==> !("http://" <= u) && !("https://" <= u)
  {
    if "http://" <= u {
      assert u[4] == ':';
      assert u[0] == 'h';
    }
    if "ws://" <= u {
      assert u[2] == ':';
      assert u[0] == 'w';
    }
    if "wss://" <= u {
      assert u[0] == 'w';
    }
  }

  /** `http://` + rest is rewritten to `ws://` + rest. */
  lemma HttpBecomesWs(rest: string)
    ensures WithWsScheme("http://" + rest) == "ws://" + rest
  {
    var u := "http://" + rest;
    assert "http://" <= u;
    ReplaceFirstOccurrence(u, "http://", "ws://", 0);
    assert u[7..] == rest;
  }

  /** `https://` + rest is rewritten to `wss://` + rest. */
  lemma HttpsBecomesWss(rest: string)
    ensures WithWsScheme("https://" + rest) == "wss://" + rest
  {
    var u := "https://" + rest;
    assert "https://" <= u;
    SchemesDisjoint(u);
    ReplaceFirstOccurrence(u, "https://", "wss://", 0);
    assert u[8..] == rest;
  }

  /** An address that already has a WebSocket scheme passes unchanged. */
  lemma WsSchemeUnchanged(u: string)
    requires HasWsScheme(u)
    ensures WithWsScheme(u) == u
  {
    SchemesDisjoint(u);
  }

  /**
    The scheme step in one formula: the result is `ws://` for a plain scheme
    and `wss://` otherwise, followed by the address with its scheme removed.
   */
  lemma WithWsSchemeKeepsAddress(u: string)
    ensures WithWsScheme(u) == (if Insecure(u) then "ws://" else "wss://") + StripScheme(u)
  {
    SchemesDisjoint(u);
    if "http://" <= u {
      assert u == "http://" + u[7..];
      HttpBecomesWs(u[7..]);
    } else if "https://" <= u {
      assert u == "https://" + u[8..];
      HttpsBecomesWss(u[8..]);
    } else if "ws://" <= u {
      assert u == "ws://" + u[5..];
    } else if "wss://" <= u {
      assert u == "wss://" + u[6..];
    }
  }

  /** The scheme step is idempotent. */
  lemma WithWsSchemeIdempotent(u: string)
    ensures WithWsScheme(WithWsScheme(u)) == WithWsScheme(u)
  {
    WsSchemeUnchanged(WithWsScheme(u));
  }

  /** Element by element: normalising a concatenation normalises each part. */
  lemma NormalizeUrlsAppend(a: seq<string>, b: seq<string>, canonicalize: string -> string)
    ensures NormalizeUrls(a + b, canonicalize) == NormalizeUrls(a, canonicalize) + NormalizeUrls(b, canonicalize)
  {
  }

  /**
    When canonicalisation keeps a WebSocket scheme and is idempotent on such
    addresses, normalising an already normalised list changes nothing.
   */
  lemma NormalizeUrlsIdempotent(urls: seq<string>, canonicalize: string -> string)
    requires forall u :: HasWsScheme(u) ==> HasWsScheme(canonicalize(u))
    requires forall u :: HasWsScheme(u) ==> canonicalize(canonicalize(u)) == canonicalize(u)
    ensures NormalizeUrls(NormalizeUrls(urls, canonicalize), canonicalize) == NormalizeUrls(urls, canonicalize)
  {
    var once := NormalizeUrls(urls, canonicalize);
    forall i | 0 <= i < |urls|
      ensures WithWsScheme(once[i]) == once[i]
    {
      WsSchemeUnchanged(once[i]);
    }
  }
}
