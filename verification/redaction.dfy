/**
 * Redaction of request bodies before they are logged: an entry whose key or
 * string value contains a sensitive keyword, ignoring case, is replaced by
 * the text "[REDACTED]".
 */
module Redaction {

  /** A decoded JSON value; only strings can carry a keyword. */
  datatype Json =
    | JString(s: string)
    | JNumber(n: int)
    | JBool(b: bool)
    | JNull
    | JArray(items: seq<Json>)
    | JObject(fields: map<string, Json>)

  const SensitiveKeywords: seq<string> := ["password"]
  const Redacted: string := "[REDACTED]"

  /** Lower-case an ASCII capital letter; every other character is kept. */
  function LowerChar(c: char): (r: char)
    ensures 'A' <= c <= 'Z' ==> 'a' <= r <= 'z' && r as int - 'a' as int == c as int - 'A' as int
    ensures !('A' <= c <= 'Z') ==> r == c
    ensures !('A' <= r <= 'Z')
  {
    if 'A' <= c <= 'Z' then (c as int + 32) as char else c
  }

  /** `strings.ToLower`, on ASCII letters. */
  function ToLower(s: string): (r: string)
    ensures |r| == |s|
    ensures forall i | 0 <= i < |s| :: r[i] == LowerChar(s[i])
    ensures forall i | 0 <= i < |r| :: !('A' <= r[i] <= 'Z')
  {
    seq(|s|, i requires 0 <= i < |s| => LowerChar(s[i]))
  }

  /** Lower-casing is idempotent, and it leaves a string without capitals as it is. */
  lemma ToLowerIdempotent(s: string)
    ensures ToLower(ToLower(s)) == ToLower(s)
    ensures (forall i | 0 <= i < |s| :: !('A' <= s[i] <= 'Z')) ==> ToLower(s) == s
  {
    var t := ToLower(s);
    assert forall i | 0 <= i < |t| :: ToLower(t)[i] == t[i];
    if forall i | 0 <= i < |s| :: !('A' <= s[i] <= 'Z') {
      assert forall i | 0 <= i < |s| :: t[i] == s[i];
    }
  }

  /** `k` occurs in `s` starting at `i`. */
  predicate OccursAt(s: string, k: string, i: int) {
    0 <= i && i + |k| <= |s| && s[i..i + |k|] == k
  }

  /** `k` occurs somewhere in `s`. */
  predicate Substring(k: string, s: string) {
    exists j | 0 <= j <= |s| :: OccursAt(s, k, j)
  }

  /** The search loop of `strings.Contains` from position `i`. */
  function ContainsFrom(s: string, k: string, i: nat): (r: bool)
    requires i <= |s|
    ensures r <==> exists j | i <= j <= |s| :: OccursAt(s, k, j)
    decreases |s| - i
  {
    if i + |k| > |s| then
      assert forall j | i <= j <= |s| :: !OccursAt(s, k, j);
      false
    else if s[i..i + |k|] == k then
      assert OccursAt(s, k, i);
      true
    else ContainsFrom(s, k, i + 1)
  }

  /** `strings.Contains`: true exactly when `k` occurs somewhere in `s`. */
  function Contains(s: string, k: string): (r: bool)
    ensures r <==> Substring(k, s)
  {
    ContainsFrom(s, k, 0)
  }

  /** `containsSensitiveKeyword`: a string whose lower-case form contains the keyword; never any other value. */
  function ContainsSensitiveKeyword(v: Json, keyword: string): (r: bool)
    ensures r <==> v.JString? && Substring(keyword, ToLower(v.s))
  {
    match v
    case JString(s) => Contains(ToLower(s), keyword)
    case _ => false
  }

  /** The key or the value of an entry contains `keyword`. */
  predicate Flags(key: string, value: Json, keyword: string) {
    ContainsSensitiveKeyword(JString(key), keyword) || ContainsSensitiveKeyword(value, keyword)
  }

  /** The entry for `key` matches some sensitive keyword, by its key or by its value. */
  predicate Sensitive(key: string, value: Json) {
    exists i | 0 <= i < |SensitiveKeywords| :: Flags(key, value, SensitiveKeywords[i])
  }

  /** The keyword loop for one entry. */
  function MatchesFrom(key: string, value: Json, i: nat): (r: bool)
    requires i <= |SensitiveKeywords|
    ensures r <==> exists j | i <= j < |SensitiveKeywords| :: Flags(key, value, SensitiveKeywords[j])
    decreases |SensitiveKeywords| - i
  {
    if i == |SensitiveKeywords| then false
    else Flags(key, value, SensitiveKeywords[i]) || MatchesFrom(key, value, i + 1)
  }

  /**
   * A listing of the keys of `body` in the order Go's map iteration visits
   * them: every key exactly once.
   */
  predicate Enumerates(keys: seq<string>, body: map<string, Json>) {
    && (forall k | k in keys :: k in body)
    && (forall k | k in body :: k in keys)
    && (forall i, j | 0 <= i < j < |keys| :: keys[i] != keys[j])
  }

  /** `hasSensitiveData` visiting the keys from position `i` of the listing. */
  function HasSensitiveFrom(body: map<string, Json>, keys: seq<string>, i: nat): (r: bool)
    requires i <= |keys|
    requires forall k | k in keys :: k in body
    ensures r <==> exists j | i <= j < |keys| :: Sensitive(keys[j], body[keys[j]])
    decreases |keys| - i
  {
    if i == |keys| then false
    else MatchesFrom(keys[i], body[keys[i]], 0) || HasSensitiveFrom(body, keys, i + 1)
  }

  /** `hasSensitiveData`: true exactly when some entry is sensitive, whatever the visiting order. */
  function HasSensitiveData(body: map<string, Json>, keys: seq<string>): (r: bool)
    requires Enumerates(keys, body)
    ensures r <==> exists k | k in body :: Sensitive(k, body[k])
  {
    var r := HasSensitiveFrom(body, keys, 0);
    assert r ==> exists k | k in body :: Sensitive(k, body[k]);
    assert (exists k | k in body :: Sensitive(k, body[k])) ==> r by {
      if k :| k in body && Sensitive(k, body[k]) {
        var j :| 0 <= j < |keys| && keys[j] == k;
      }
    }
    r
  }

  /**
   * The rewrite loop over the first `n` keys of the listing. The value examined
   * is the one read by the iteration, which is the original value: only the
   * key being visited is ever rewritten.
   */
  function RedactPrefix(body: map<string, Json>, keys: seq<string>, n: nat): (r: map<string, Json>)
    requires n <= |keys|
    requires forall k | k in keys :: k in body
    ensures r.Keys == body.Keys
    ensures forall k | k in body ::
              r[k] == if k in keys[..n] && Sensitive(k, body[k]) then JString(Redacted) else body[k]
  {
    if n == 0 then body
    else
      var key := keys[n - 1];
      var m := RedactPrefix(body, keys, n - 1);
      assert keys[..n] == keys[..n - 1] + [key];
      if MatchesFrom(key, body[key], 0) then m[key := JString(Redacted)] else m
  }

  /**
   * The redaction step of `LoggerData`: when the body has sensitive data,
   * every sensitive entry becomes "[REDACTED]"; the key set and all other
   * entries stay as they are.
   */
  function RedactBody(body: map<string, Json>, keys: seq<string>): (r: map<string, Json>)
    requires Enumerates(keys, body)
    ensures r.Keys == body.Keys
    ensures forall k | k in body :: r[k] == if Sensitive(k, body[k]) then JString(Redacted) else body[k]
    ensures !HasSensitiveData(body, keys) ==> r == body
  {
    if HasSensitiveData(body, keys) then
      var r := RedactPrefix(body, keys, |keys|);
      assert keys[..|keys|] == keys;
      r
    else body
  }

  /** The visiting order does not matter. */
  lemma RedactOrderIndependent(body: map<string, Json>, keys: seq<string>, keys': seq<string>)
    requires Enumerates(keys, body) && Enumerates(keys', body)
    ensures RedactBody(body, keys) == RedactBody(body, keys')
  {
    var r := RedactBody(body, keys);
    var r' := RedactBody(body, keys');
    SameEntries(r, r');
  }

  /** Two maps with the same keys and the same value at every key are equal. */
  lemma SameEntries(a: map<string, Json>, b: map<string, Json>)
    requires a.Keys == b.Keys
    requires forall k | k in a :: a[k] == b[k]
    ensures a == b
  {
  }

  /** A string lacking the first character of `k` does not contain `k`. */
  lemma MissingFirstChar(s: string, k: string)
    requires |k| > 0
    requires forall j | 0 <= j < |s| :: s[j] != k[0]
    ensures !Substring(k, s)
  {
    forall j | 0 <= j <= |s| ensures !OccursAt(s, k, j) {
      if j + |k| <= |s| {
        assert s[j..j + |k|][0] == s[j];
      }
    }
  }

  /** Lower-cased, "[REDACTED]" has no letter p. */
  lemma RedactedLacksP()
    ensures forall j | 0 <= j < |ToLower(Redacted)| :: ToLower(Redacted)[j] != 'p'
  {
    forall j | 0 <= j < |Redacted| ensures LowerChar(Redacted[j]) != 'p' {
    }
  }

  /** "[REDACTED]" contains no keyword. */
  lemma RedactedIsClean()
    ensures forall i | 0 <= i < |SensitiveKeywords| :: !ContainsSensitiveKeyword(JString(Redacted), SensitiveKeywords[i])
  {
    RedactedLacksP();
    MissingFirstChar(ToLower(Redacted), "password");
  }

  /** After redaction no string value contains a sensitive keyword, ignoring case. */
  lemma RedactedValuesClean(body: map<string, Json>, keys: seq<string>)
    requires Enumerates(keys, body)
    requires HasSensitiveData(body, keys)
    ensures forall k, i | k in RedactBody(body, keys) && 0 <= i < |SensitiveKeywords| ::
              !ContainsSensitiveKeyword(RedactBody(body, keys)[k], SensitiveKeywords[i])
  {
    RedactedIsClean();
  }

  /** Redacting twice changes nothing more. */
  lemma RedactIdempotent(body: map<string, Json>, keys: seq<string>)
    requires Enumerates(keys, body)
    ensures Enumerates(keys, RedactBody(body, keys))
    ensures RedactBody(RedactBody(body, keys), keys) == RedactBody(body, keys)
  {
    var r := RedactBody(body, keys);
    var r2 := RedactBody(r, keys);
    forall k | k in r ensures r2[k] == r[k] {
      if r[k] != JString(Redacted) {
        assert r[k] == body[k] && !Sensitive(k, body[k]);
      }
    }
  }
}
