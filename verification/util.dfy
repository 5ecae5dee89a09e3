/**
 * The canonical hasher of workers/util.py: `get_hash(task_name, args, kwargs)` is the SHA-1 hex
 * digest of the handler name followed by `json.dumps((args, kwargs), sort_keys=True)`.
 * SHA-1 itself is not modelled: a `Digester` is any function whose every output is 40 lower-case
 * hex characters, and the hasher is parameterised by one.
 */
module Util {
  import opened Json
  import Canonical
  import Render
  import Parse

  /** The shape of `hashlib.sha1(...).hexdigest()`: 40 lower-case hex characters. */
  predicate IsHexDigest(d: string) {
    |d| == 40 && forall i :: 0 <= i < |d| ==> Render.IsHexDigit(d[i])
  }

  /** A string of that shape. */
  type HexDigest = d: string | IsHexDigest(d) witness seq(40, i => '0')

  /** A stand-in for SHA-1 over the UTF-8 encoding of its input, rendered with `hexdigest()`. */
  type Digester = string -> HexDigest

  /** `(args or [], kwargs or {})` serialised as the JSON array Python writes for a tuple. */
  function Params(args: Json, kwargs: Json): string {
    Render.Serialize(Arr([OrElse(args, Arr([])), OrElse(kwargs, Obj([]))]))
  }

  /** The string `get_hash` feeds to SHA-1: `'%s%s' % (task_name, params)`. */
  function DigestInput(handler: string, args: Json, kwargs: Json): string {
    handler + Params(args, kwargs)
  }

  /** workers/util.py `get_hash`. */
  function GetHash(digest: Digester, handler: string, args: Json, kwargs: Json): (r: string)
    ensures IsHexDigest(r)
    ensures |r| == 40
  {
    digest(DigestInput(handler, args, kwargs))
  }

  /** The digest input is the handler name followed by the two-element JSON array of the
      normalised, key-sorted arguments, written with Python's ", " separator. */
  lemma DigestInputShape(handler: string, args: Json, kwargs: Json)
    ensures DigestInput(handler, args, kwargs) ==
      handler + "[" + Render.Serialize(OrElse(args, Arr([]))) + ", " +
      Render.Serialize(OrElse(kwargs, Obj([]))) + "]"
  {
    Render.SerializePair(OrElse(args, Arr([])), OrElse(kwargs, Obj([])));
  }

  /** `None` and every other falsy argument list is hashed as `[]`, and every falsy keyword
      argument value as `{}`: `get_hash(h)` equals `get_hash(h, [], {})`. */
  lemma GetHashNormalisesFalsy(digest: Digester, handler: string, args: Json, kwargs: Json)
    ensures Falsy(args) ==> GetHash(digest, handler, args, kwargs) == GetHash(digest, handler, Arr([]), kwargs)
    ensures Falsy(kwargs) ==> GetHash(digest, handler, args, kwargs) == GetHash(digest, handler, args, Obj([]))
    ensures GetHash(digest, handler, Null, Null) == GetHash(digest, handler, Arr([]), Obj([]))
  {
  }

  /** Inserting keyword arguments (or the keys of any dict nested in the arguments) in another
      order does not change the hash. */
  lemma GetHashIgnoresKeyOrder(digest: Digester, handler: string, args: Json, kwargs: Json, args': Json, kwargs': Json)
    requires WellFormed(args) && WellFormed(kwargs) && WellFormed(args') && WellFormed(kwargs')
    requires Canonical.SameUpToKeyOrder(args, args')
    requires Canonical.SameUpToKeyOrder(kwargs, kwargs')
    ensures GetHash(digest, handler, args, kwargs) == GetHash(digest, handler, args', kwargs')
  {
    SameUpToKeyOrderKeepsFalsy(args, args');
    SameUpToKeyOrderKeepsFalsy(kwargs, kwargs');
    Canonical.CanonIgnoresKeyOrder(args, args');
    Canonical.CanonIgnoresKeyOrder(kwargs, kwargs');
    DigestInputShape(handler, args, kwargs);
    DigestInputShape(handler, args', kwargs');
  }

  lemma SameUpToKeyOrderKeepsFalsy(a: Json, b: Json)
    requires Canonical.SameUpToKeyOrder(a, b)
    ensures Falsy(a) <==> Falsy(b)
  {
  }

  /** Two calls feed SHA-1 the same string exactly when, after the falsy arguments are replaced
      by `[]` and `{}`, their args and their kwargs are the same up to dict key order. */
  lemma DigestInputSameIff(handler: string, args: Json, kwargs: Json, args': Json, kwargs': Json)
    requires WellFormed(args) && WellFormed(kwargs) && WellFormed(args') && WellFormed(kwargs')
    ensures DigestInput(handler, args, kwargs) == DigestInput(handler, args', kwargs') <==>
      && Canonical.SameUpToKeyOrder(OrElse(args, Arr([])), OrElse(args', Arr([])))
      && Canonical.SameUpToKeyOrder(OrElse(kwargs, Obj([])), OrElse(kwargs', Obj([])))
  {
    var a, k := OrElse(args, Arr([])), OrElse(kwargs, Obj([]));
    var a', k' := OrElse(args', Arr([])), OrElse(kwargs', Obj([]));
    assert WellFormed(Arr([a, k])) && WellFormed(Arr([a', k']));
    PrefixCancels(handler, Params(args, kwargs), Params(args', kwargs'));
    Parse.SerializeSameIff(Arr([a, k]), Arr([a', k']));
    PairSameUpToKeyOrder(a, k, a', k');
  }

  lemma PrefixCancels(h: string, x: string, y: string)
    ensures h + x == h + y <==> x == y
  {
    if h + x == h + y {
      assert x == (h + x)[|h|..];
      assert y == (h + y)[|h|..];
    }
  }

  /** A pair is the same as another up to key order exactly when its elements are. */
  lemma PairSameUpToKeyOrder(a: Json, k: Json, a': Json, k': Json)
    ensures Canonical.SameUpToKeyOrder(Arr([a, k]), Arr([a', k'])) <==>
      Canonical.SameUpToKeyOrder(a, a') && Canonical.SameUpToKeyOrder(k, k')
  {
    var xs, ys := [a, k], [a', k'];
    if Canonical.SameUpToKeyOrder(a, a') && Canonical.SameUpToKeyOrder(k, k') {
      assert forall i :: 0 <= i < |xs| ==> Canonical.SameUpToKeyOrder(xs[i], ys[i]);
    }
    if Canonical.SameUpToKeyOrder(Arr(xs), Arr(ys)) {
      assert Canonical.SameUpToKeyOrder(xs[0], ys[0]) && Canonical.SameUpToKeyOrder(xs[1], ys[1]);
    }
  }
}
