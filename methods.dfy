/**
 * Which registrations an incoming request method admits
 * (`Router::prepareRoute`, `Router::prepareMethod` and
 * `Router::getRequestMethodWithOverride`).
 */
module Methods {
  import opened PhpStrings

  /** The list a method list containing `ALL` stands for. */
  const AllMethods: string := "GET|POST|PUT|DELETE|OPTIONS|PATCH|HEAD"

  /** The method registrations are checked against: a HEAD request is treated as GET. */
  function EffectiveMethod(requestMethod: string): (m: string)
    ensures requestMethod == "HEAD" ==> m == "GET"
    ensures requestMethod != "HEAD" ==> m == requestMethod
  {
    if requestMethod == "HEAD" then "GET" else requestMethod
  }

  /** The method list as checked: upper-cased, and the full list when it mentions `ALL`. */
  function PrepareMethod(methods: string): (r: string)
    ensures forall i :: 0 <= i < |r| ==> !('a' <= r[i] <= 'z')
  {
    var m := Upper(methods);
    if Contains(m, "ALL") then AllMethods else m
  }

  /**
   * A registration is kept when the effective request method is non-empty
   * and occurs, as a substring, in the prepared method list.
   */
  predicate Accepts(requestMethod: string, methods: string) {
    var m := EffectiveMethod(requestMethod);
    m != "" && Contains(PrepareMethod(methods), m)
  }

  /** A HEAD request is admitted by exactly the registrations a GET request is. */
  lemma HeadAsGet(methods: string)
    ensures Accepts("HEAD", methods) == Accepts("GET", methods)
  {
  }

  /** A request without a method is admitted by nothing. */
  lemma EmptyMethodRejected(methods: string)
    ensures !Accepts("", methods)
  {
  }

  /** The method list is compared case-insensitively. */
  lemma CaseInsensitive(requestMethod: string, methods: string)
    ensures Accepts(requestMethod, methods) == Accepts(requestMethod, Upper(methods))
  {
    UpperIdempotent(methods);
  }

  /**
   * A list that mentions `ALL`, in any letter case, admits every method of
   * the full list (and HEAD, which is checked as GET).
   */
  lemma AllAdmitsEveryMethod(methods: string, requestMethod: string)
    requires Contains(Upper(methods), "ALL")
    requires requestMethod in ["GET", "POST", "PUT", "DELETE", "OPTIONS", "PATCH", "HEAD"]
    ensures Accepts(requestMethod, methods)
  {
    FullListContains(EffectiveMethod(requestMethod));
  }

  lemma FullListContains(m: string)
    requires m in ["GET", "POST", "PUT", "DELETE", "OPTIONS", "PATCH"]
    ensures Contains(AllMethods, m)
  {
    if m == "GET" {
      ListedAt(m, 0);
    } else if m == "POST" {
      ListedAt(m, 4);
    } else if m == "PUT" {
      ListedAt(m, 9);
    } else if m == "DELETE" {
      ListedAt(m, 13);
    } else if m == "OPTIONS" {
      ListedAt(m, 20);
    } else {
      ListedAt(m, 28);
    }
  }

  lemma ListedAt(m: string, i: nat)
    requires i + |m| <= |AllMethods|
    requires forall k :: 0 <= k < |m| ==> AllMethods[i + k] == m[k]
    ensures Contains(AllMethods, m)
  {
    assert OccursAt(AllMethods, m, i);
  }

  /**
   * `ALL` overrides the rest of the list: a method named beside it that is
   * not in the full list is not admitted.
   */
  lemma AllOverridesList(methods: string, requestMethod: string)
    requires Contains(Upper(methods), "ALL")
    requires !Contains(AllMethods, EffectiveMethod(requestMethod))
    ensures !Accepts(requestMethod, methods)
  {
  }

  /**
   * Without `ALL`, a method spelled out in the list (in any letter case) is
   * admitted. The check is substring containment, not list membership: any
   * upper-case fragment of the list is admitted too, even one spanning a
   * separator (`ET|P` in `get|post`).
   */
  lemma ListedMethodAdmitted(before: string, requestMethod: string, after: string)
    requires requestMethod != "" && requestMethod != "HEAD"
    requires Upper(requestMethod) == requestMethod
    requires !Contains(Upper(before + requestMethod + after), "ALL")
    ensures Accepts(requestMethod, before + requestMethod + after)
  {
    var u := Upper(before + requestMethod + after);
    assert u == Upper(before) + requestMethod + Upper(after) by {
      assert |u| == |Upper(before) + requestMethod + Upper(after)|;
      forall i | 0 <= i < |u| ensures u[i] == (Upper(before) + requestMethod + Upper(after))[i] {
        if i < |before| {
        } else if i < |before| + |requestMethod| {
          assert (before + requestMethod + after)[i] == requestMethod[i - |before|];
          assert UpperChar(requestMethod[i - |before|]) == Upper(requestMethod)[i - |before|];
        } else {
        }
      }
    }
    ContainsInfix(Upper(before), requestMethod, Upper(after));
  }

  /**
   * Only the method list is upper-cased: a request method with a lower-case
   * letter is admitted by no list.
   */
  lemma LowerCaseMethodRejected(requestMethod: string, methods: string, i: nat)
    requires i < |requestMethod| && 'a' <= requestMethod[i] <= 'z'
    ensures !Accepts(requestMethod, methods)
  {
    var r := PrepareMethod(methods);
    assert EffectiveMethod(requestMethod) == requestMethod;
    forall k | 0 <= k && k + |requestMethod| <= |r| ensures !OccursAt(r, requestMethod, k) {
      assert r[k..k + |requestMethod|][i] == r[k + i];
    }
  }
}
