/** The risk heuristic of src/risk.js, without pluggable providers: the gateway registers none. */
module Risk {
  predicate Contains(s: string, part: string) {
    part <= s || (s != "" && Contains(s[1..], part))
  }

  function BaseFor(action: string): nat {
    if "admin." <= action then 80
    else if "payments." <= action then 60
    else if "code.exec" <= action then 50
    else if "external.send" <= action then 40
    else if "data.write" <= action then 25
    else if "browser." <= action then 20
    else if "data.read" <= action then 5
    else if "search." <= action then 5
    else 15
  }

  /** `Math.min(30, Math.round(cents / 100))` */
  function SpendPart(cents: nat): nat {
    var rounded := (cents + 50) / 100;
    if rounded > 30 then 30 else rounded
  }

  predicate Novel(action: string) {
    Contains(action, "payments.") || Contains(action, "admin.") || Contains(action, "external.")
  }

  predicate Sensitive(action: string) {
    Contains(action, "payments.") || Contains(action, "admin.") || Contains(action, "code.exec")
  }

  function Sum(action: string, cents: nat, depth: nat, seen: bool, hour: nat): nat {
    BaseFor(action) + SpendPart(cents) + depth * 5
    + (if !seen && Novel(action) then 10 else 0)
    + (if hour < 6 then 5 else 0)
    + (if depth >= 2 && Sensitive(action) then 15 else 0)
  }

  function Score(action: string, cents: nat, depth: nat, seen: bool, hour: nat): nat {
    var s := Sum(action, cents, depth, seen, hour);
    if s > 100 then 100 else s
  }

  /** More money, a longer delegation chain or a resource not seen before never lower the score,
      and it stays a percentage. */
  lemma ScoreIsMonotone(action: string, cents: nat, depth: nat, seen: bool, hour: nat, cents': nat, depth': nat,
      seen': bool)
    requires cents <= cents' && depth <= depth' && (seen' ==> seen)
    ensures Score(action, cents, depth, seen, hour) <= Score(action, cents', depth', seen', hour) <= 100
  {
    hide BaseFor, Novel, Sensitive;
  }
}
