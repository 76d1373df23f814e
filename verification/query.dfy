/**
 The query string of the handler's request and of the URL it forwards to.
 The handler folds the already-decoded (key, value) pairs of its request into a
 plain object, where a later pair overwrites an earlier one with the same key,
 and tests each parameter with JavaScript truthiness. The forwarded URL is
 assembled with Array.prototype.join; Split and DecodeQuery read it back.
 */
module Query {
  import opened Wrappers
  import UriCodec

  /** One query parameter: its name and its value. */
  type Pair = (string, string)

  /** Object.fromEntries: a left fold in which a later pair for a key overwrites
      an earlier one. */
  function FromEntries(q: seq<Pair>): map<string, string> {
    if |q| == 0 then map[]
    else FromEntries(q[..|q| - 1])[q[|q| - 1].0 := q[|q| - 1].1]
  }

  /** The folded object has exactly the keys that occur in the pairs. */
  lemma {:induction false} FromEntriesKeys(q: seq<Pair>, k: string)
    ensures k in FromEntries(q) <==> exists i :: 0 <= i < |q| && q[i].0 == k
  {
    if |q| > 0 {
      var init := q[..|q| - 1];
      FromEntriesKeys(init, k);
      if k in FromEntries(init) {
        var i :| 0 <= i < |init| && init[i].0 == k;
        assert q[i].0 == k;
      }
      if k != q[|q| - 1].0 && exists i :: 0 <= i < |q| && q[i].0 == k {
        var i :| 0 <= i < |q| && q[i].0 == k;
        assert init[i].0 == k;
      }
    }
  }

  /** True iff `i` is the position of the last pair whose key is `k`. */
  ghost predicate IsLastOccurrence(q: seq<Pair>, k: string, i: int) {
    && 0 <= i < |q|
    && q[i].0 == k
    && forall j :: i < j < |q| ==> q[j].0 != k
  }

  /** The value of key `k` is the value of its last occurrence. */
  lemma {:induction false} FromEntriesLastWins(q: seq<Pair>, k: string, i: int)
    requires IsLastOccurrence(q, k, i)
    ensures k in FromEntries(q) && FromEntries(q)[k] == q[i].1
  {
    if i < |q| - 1 {
      var init := q[..|q| - 1];
      assert IsLastOccurrence(init, k, i);
      FromEntriesLastWins(init, k, i);
    }
  }

  /** A key that occurs at all has a last occurrence. */
  lemma {:induction false} LastOccurrenceExists(q: seq<Pair>, k: string, i: int)
    requires 0 <= i < |q| && q[i].0 == k
    ensures exists j :: IsLastOccurrence(q, k, j)
    decreases |q| - i
  {
    if !IsLastOccurrence(q, k, i) {
      var j :| i < j < |q| && q[j].0 == k;
      LastOccurrenceExists(q, k, j);
    }
  }

  /** JavaScript truthiness of `params[k]` for a string-valued object: the key is
      present and its value is not the empty string. */
  predicate Truthy(params: map<string, string>, k: string) {
    k in params && params[k] != ""
  }

  /** The value of `params[k]`, with the empty string standing for `undefined`. */
  function Get(params: map<string, string>, k: string): (v: string)
    ensures Truthy(params, k) <==> v != ""
  {
    if k in params then params[k] else ""
  }

  /** The request supplies a non-empty value for `k`, judged by the last pair for `k`. */
  ghost predicate Supplied(q: seq<Pair>, k: string) {
    exists i :: IsLastOccurrence(q, k, i) && q[i].1 != ""
  }

  /** Validation on the folded object agrees with "the last pair for the key
      carries a non-empty value". */
  lemma TruthyIffSupplied(q: seq<Pair>, k: string)
    ensures Truthy(FromEntries(q), k) <==> Supplied(q, k)
  {
    var m := FromEntries(q);
    FromEntriesKeys(q, k);
    if k in m {
      var i :| 0 <= i < |q| && q[i].0 == k;
      LastOccurrenceExists(q, k, i);
      var j :| IsLastOccurrence(q, k, j);
      FromEntriesLastWins(q, k, j);
    }
    if Supplied(q, k) {
      var j :| IsLastOccurrence(q, k, j) && q[j].1 != "";
      FromEntriesLastWins(q, k, j);
    }
  }

  /** Array.prototype.join. */
  function Join(parts: seq<string>, sep: char): string {
    if |parts| == 0 then ""
    else if |parts| == 1 then parts[0]
    else parts[0] + [sep] + Join(parts[1..], sep)
  }

  /** Concatenation of `sep + part` over `parts`. */
  function Segments(parts: seq<string>, sep: char): string {
    if |parts| == 0 then "" else [sep] + parts[0] + Segments(parts[1..], sep)
  }

  /** Joining a first part, middle parts and a last part: each middle part and
      the last one come after a separator. */
  lemma {:induction false} JoinFramed(first: string, middle: seq<string>, last: string, sep: char)
    decreases |middle|
    ensures Join([first] + middle + [last], sep) == first + Segments(middle, sep) + [sep] + last
  {
    if |middle| > 0 {
      JoinFramed(middle[0], middle[1..], last, sep);
      assert ([first] + middle + [last])[1..] == [middle[0]] + middle[1..] + [last];
    }
  }

  /** Joining after a common prefix on the first part. */
  lemma JoinHead(prefix: string, first: string, middle: seq<string>, last: string, sep: char)
    ensures Join([prefix + first] + middle + [last], sep) == prefix + Join([first] + middle + [last], sep)
  {
    JoinFramed(prefix + first, middle, last, sep);
    JoinFramed(first, middle, last, sep);
  }

  /** String.prototype.split with a one-character separator. */
  function Split(s: string, sep: char): (r: seq<string>)
    ensures |r| >= 1
  {
    if |s| == 0 then [""]
    else
      var t := Split(s[1..], sep);
      if s[0] == sep then [""] + t else [[s[0]] + t[0]] + t[1..]
  }

  lemma {:induction false} SplitPlainPrefix(a: string, rest: string, sep: char)
    requires sep !in a
    ensures Split(a + rest, sep) == [a + Split(rest, sep)[0]] + Split(rest, sep)[1..]
  {
    var r := Split(rest, sep);
    if |a| == 0 {
      assert a + rest == rest && a + r[0] == r[0];
    } else {
      SplitPlainPrefix(a[1..], rest, sep);
      assert (a + rest)[1..] == a[1..] + rest;
      assert (a + rest)[0] == a[0];
      assert [a[0]] + (a[1..] + r[0]) == a + r[0];
    }
  }

  /** Splitting undoes joining when no part holds the separator. */
  lemma {:induction false} SplitJoin(parts: seq<string>, sep: char)
    requires |parts| >= 1
    requires forall i :: 0 <= i < |parts| ==> sep !in parts[i]
    ensures Split(Join(parts, sep), sep) == parts
  {
    if |parts| == 1 {
      SplitPlainPrefix(parts[0], "", sep);
      assert parts[0] + "" == parts[0];
    } else {
      var rest := Join(parts[1..], sep);
      SplitJoin(parts[1..], sep);
      SplitPlainPrefix(parts[0], [sep] + rest, sep);
      assert parts[0] + [sep] + rest == parts[0] + ([sep] + rest);
      assert ([sep] + rest)[1..] == rest;
      assert Split([sep] + rest, sep) == [""] + parts[1..];
      assert parts[0] + "" == parts[0];
      assert parts == [parts[0]] + parts[1..];
    }
  }

  /** Splits a query piece at its first `=`; a piece without `=` is a key with
      an empty value. */
  function SplitPair(piece: string): Pair {
    if |piece| == 0 then ("", "")
    else if piece[0] == '=' then ("", piece[1..])
    else
      var kv := SplitPair(piece[1..]);
      ([piece[0]] + kv.0, kv.1)
  }

  lemma {:induction false} SplitPairAtFirst(k: string, v: string)
    requires '=' !in k
    ensures SplitPair(k + "=" + v) == (k, v)
  {
    if |k| > 0 {
      SplitPairAtFirst(k[1..], v);
      assert (k + "=" + v)[1..] == k[1..] + "=" + v;
      assert [k[0]] + k[1..] == k;
    }
  }

  /** Reads one `key=value` piece, decoding both halves with decodeURIComponent. */
  function DecodePair(piece: string): Option<Pair> {
    var kv := SplitPair(piece);
    match (UriCodec.Decode(kv.0), UriCodec.Decode(kv.1))
    case (Some(k), Some(v)) => Some((k, v))
    case _ => None
  }

  function DecodePairs(pieces: seq<string>): (r: Option<seq<Pair>>)
    ensures r.Some? ==> |r.value| == |pieces|
  {
    if |pieces| == 0 then Some([])
    else match (DecodePair(pieces[0]), DecodePairs(pieces[1..]))
      case (Some(p), Some(ps)) => Some([p] + ps)
      case _ => None
  }

  /** Reads a query string (the part after `?`) back into its pairs, in order. */
  function DecodeQuery(s: string): Option<seq<Pair>> {
    DecodePairs(Split(s, '&'))
  }

  /** A parameter name that needs no encoding in a query: no `&`, `=` or `%`. */
  predicate PlainKey(k: string) {
    '&' !in k && '=' !in k && '%' !in k
  }

  /** The piece `key=value` with the value passed through encodeURIComponent. */
  function FieldString(f: Pair): string {
    f.0 + "=" + UriCodec.Encode(f.1)
  }

  function FieldStrings(fs: seq<Pair>): seq<string> {
    seq(|fs|, i requires 0 <= i < |fs| => FieldString(fs[i]))
  }

  lemma FieldStringsSplit(fs: seq<Pair>)
    requires |fs| > 0
    ensures |FieldStrings(fs)| > 0
    ensures FieldStrings(fs)[0] == FieldString(fs[0])
    ensures FieldStrings(fs)[1..] == FieldStrings(fs[1..])
  {
  }

  lemma FieldStringSingle(f: Pair)
    ensures FieldStrings([f]) == [FieldString(f)]
  {
  }

  lemma FieldStringsConcat(a: seq<Pair>, b: seq<Pair>)
    ensures FieldStrings(a + b) == FieldStrings(a) + FieldStrings(b)
  {
  }

  /** A piece written by FieldString reads back as the pair it was written from. */
  lemma DecodeFieldString(f: Pair)
    requires PlainKey(f.0)
    ensures DecodePair(FieldString(f)) == Some(f)
  {
    SplitPairAtFirst(f.0, UriCodec.Encode(f.1));
    UriCodec.DecodePlain(f.0);
    UriCodec.DecodeEncode(f.1);
  }

  /** A query written from pairs with plain names reads back as exactly those
      pairs, in the same order. */
  lemma {:induction false} DecodeJoinedFields(fs: seq<Pair>)
    requires |fs| >= 1
    requires forall i :: 0 <= i < |fs| ==> PlainKey(fs[i].0)
    ensures DecodeQuery(Join(FieldStrings(fs), '&')) == Some(fs)
  {
    var parts := FieldStrings(fs);
    forall i | 0 <= i < |parts|
      ensures '&' !in parts[i]
    {
      UriCodec.EncodeWellEncoded(fs[i].1);
      UriCodec.WellEncodedAlphabet(UriCodec.Encode(fs[i].1));
    }
    SplitJoin(parts, '&');
    DecodeFieldStrings(fs);
  }

  lemma {:induction false} DecodeFieldStrings(fs: seq<Pair>)
    requires forall i :: 0 <= i < |fs| ==> PlainKey(fs[i].0)
    ensures DecodePairs(FieldStrings(fs)) == Some(fs)
  {
    if |fs| > 0 {
      var ps := FieldStrings(fs);
      FieldStringsSplit(fs);
      DecodeFieldString(fs[0]);
      DecodeFieldStrings(fs[1..]);
      assert DecodePairs(ps) == Some([fs[0]] + fs[1..]);
      assert [fs[0]] + fs[1..] == fs;
    }
  }
}
