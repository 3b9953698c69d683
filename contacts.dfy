/** The contact search (controllers/contactsController.js): the search term is escaped
    so that every regular-expression metacharacter stands for itself, and the users
    other than the requester whose first name, last name or email contain the term,
    ignoring case, are returned. */
module Contacts {
  import opened Common
  import opened Text
  import opened Schemas

  /** The characters of the class `[.*+?^${}()|[\]\\]` that the escaper matches. */
  const MetaChars: set<char> := {'.', '*', '+', '?', '^', '$', '{', '}', '(', ')', '|', '[', ']', '\\'}

  function CountMeta(s: string): nat
  {
    if s == [] then 0 else (if s[0] in MetaChars then 1 else 0) + CountMeta(s[1..])
  }

  /** The replacement `'\\$&'` applied to one character. */
  function EscapeChar(c: char): (r: string)
    ensures c in MetaChars ==> r == ['\\', c]
    ensures c !in MetaChars ==> r == [c]
  {
    if c in MetaChars then ['\\', c] else [c]
  }

  /** `searchTerm.replace(/[.*+?^${}()|[\]\\]/g, '\\$&')`. */
  function Escape(s: string): (r: string)
    ensures |r| == |s| + CountMeta(s)
    ensures CountMeta(s) == 0 ==> r == s
  {
    if s == [] then [] else EscapeChar(s[0]) + Escape(s[1..])
  }

  /** Escaping works character by character. */
  lemma {:induction false} EscapeAppend(a: string, b: string)
    ensures Escape(a + b) == Escape(a) + Escape(b)
  {
    if a == [] {
      assert a + b == b;
    } else {
      assert (a + b)[0] == a[0] && (a + b)[1..] == a[1..] + b;
      EscapeAppend(a[1..], b);
      assert Escape(a + b) == EscapeChar(a[0]) + (Escape(a[1..]) + Escape(b));
    }
  }

  /** A term without metacharacters escapes to itself. */
  lemma {:induction false} NoMetaEscapesToItself(s: string)
    requires forall i :: 0 <= i < |s| ==> s[i] !in MetaChars
    ensures Escape(s) == s
  {
    if s != [] {
      NoMetaEscapesToItself(s[1..]);
    }
  }

  /** The literal string denoted by a pattern made only of literal atoms (an ordinary
      character, or a backslash before a metacharacter). `None` for any other pattern,
      which this model of the regular-expression engine does not interpret. */
  function LiteralPattern(p: string): (r: Option<string>)
    ensures r.Some? ==> |r.value| <= |p|
  {
    if p == [] then Some([])
    else if p[0] == '\\' then
      if |p| >= 2 && p[1] in MetaChars then
        match LiteralPattern(p[2..])
        case Some(rest) => Some([p[1]] + rest)
        case None => None
      else None
    else if p[0] in MetaChars then None
    else
      match LiteralPattern(p[1..])
      case Some(rest) => Some([p[0]] + rest)
      case None => None
  }

  /** Stripping the backslash before each escaped character recovers the term: the
      escaped term is a literal pattern that denotes exactly the term. */
  lemma {:induction false} EscapeRoundTrip(s: string)
    ensures LiteralPattern(Escape(s)) == Some(s)
  {
    if s != [] {
      EscapeRoundTrip(s[1..]);
      var e := Escape(s);
      if s[0] in MetaChars {
        assert e == ['\\', s[0]] + Escape(s[1..]);
        assert e[2..] == Escape(s[1..]);
        assert LiteralPattern(e) == Some([s[0]] + s[1..]);
        assert [s[0]] + s[1..] == s;
      } else {
        assert e == [s[0]] + Escape(s[1..]);
        assert e[0] == s[0] && s[0] != '\\';
        assert e[1..] == Escape(s[1..]);
        assert LiteralPattern(e) == Some([s[0]] + s[1..]);
        assert [s[0]] + s[1..] == s;
      }
    }
  }

  /** Escaping is injective. */
  lemma EscapeInjective(a: string, b: string)
    requires Escape(a) == Escape(b)
    ensures a == b
  {
    EscapeRoundTrip(a);
    EscapeRoundTrip(b);
  }

  /** `new RegExp(pattern, 'i').test(field)` for a literal pattern, as MongoDB applies it
      to a document field: a missing field never matches. */
  predicate RegexTest(pattern: string, field: Option<string>)
    ensures RegexTest(pattern, field) ==> field.Some? && LiteralPattern(pattern).Some?
  {
    match LiteralPattern(pattern)
    case Some(literal) => field.Some? && ContainsIgnoreCase(field.value, literal)
    case None => false
  }

  /** The `$and` query: not the requester, and one of the three fields matches. */
  predicate Selected(u: User, requester: UserId, pattern: string)
    ensures Selected(u, requester, pattern) ==> u.id != requester
    ensures Selected(u, requester, pattern) ==> u.firstName.Some? || u.lastName.Some? || u.email.Some?
  {
    && u.id != requester
    && (RegexTest(pattern, u.firstName) || RegexTest(pattern, u.lastName) || RegexTest(pattern, u.email))
  }

  /** What the search promises: the user is not the requester and a present first name,
      last name or email contains the term itself, ignoring case. */
  predicate MatchesTerm(u: User, requester: UserId, term: string)
  {
    && u.id != requester
    && ((u.firstName.Some? && ContainsIgnoreCase(u.firstName.value, term))
        || (u.lastName.Some? && ContainsIgnoreCase(u.lastName.value, term))
        || (u.email.Some? && ContainsIgnoreCase(u.email.value, term)))
  }

  /** The escaped term used as a case-insensitive regular expression matches a field exactly
      when the field is present and contains the term itself, ignoring case. */
  lemma EscapedTestIsContainment(term: string, field: Option<string>)
    ensures RegexTest(Escape(term), field) <==> field.Some? && ContainsIgnoreCase(field.value, term)
  {
    EscapeRoundTrip(term);
  }

  /** The query built from the escaped term selects exactly the users the search promises. */
  lemma SelectedIsMatch(u: User, requester: UserId, term: string)
    ensures Selected(u, requester, Escape(term)) <==> MatchesTerm(u, requester, term)
  {
    EscapedTestIsContainment(term, u.firstName);
    EscapedTestIsContainment(term, u.lastName);
    EscapedTestIsContainment(term, u.email);
  }

  /** `User.find(query)` over the stored users, in store order. */
  function Select(users: seq<User>, requester: UserId, pattern: string): (r: seq<User>)
    ensures |r| <= |users|
    ensures forall u :: u in r ==> u in users && Selected(u, requester, pattern)
    ensures forall u :: u in users && Selected(u, requester, pattern) ==> u in r
  {
    if users == [] then []
    else
      var rest := Select(users[1..], requester, pattern);
      if Selected(users[0], requester, pattern) then [users[0]] + rest else rest
  }

  datatype SearchReply = BadRequest | ServerError | Found(contacts: seq<User>)

  function SearchStatus(reply: SearchReply): nat
  {
    match reply
    case BadRequest => StatusBadRequest
    case ServerError => StatusServerError
    case Found(_) => StatusOk
  }

  /** `searchContacts`: an undefined or null term is rejected with 400 (the empty string is
      a valid term); otherwise the escaped term is matched against the stored users. */
  function SearchContacts(searchTerm: Option<string>, requester: UserId, store: Store<User>): (reply: SearchReply)
    ensures searchTerm.None? <==> reply.BadRequest?
    ensures reply.ServerError? <==> searchTerm.Some? && store.Unavailable?
    ensures SearchStatus(reply) == StatusOk <==> searchTerm.Some? && store.Available?
    ensures reply.Found? ==> forall u :: u in reply.contacts ==>
      u in store.records && MatchesTerm(u, requester, searchTerm.value)
    ensures reply.Found? ==> forall u :: u in store.records && MatchesTerm(u, requester, searchTerm.value) ==>
      u in reply.contacts
  {
    match searchTerm
    case None => BadRequest
    case Some(term) =>
      var pattern := Escape(term);
      assert forall u :: Selected(u, requester, pattern) <==> MatchesTerm(u, requester, term) by {
        forall u ensures Selected(u, requester, pattern) <==> MatchesTerm(u, requester, term) {
          SelectedIsMatch(u, requester, term);
        }
      }
      match store
      case Unavailable => ServerError
      case Available(users) => Found(Select(users, requester, pattern))
  }

  /** The requester never appears among their own contacts. */
  lemma RequesterExcluded(term: Option<string>, requester: UserId, store: Store<User>)
    requires SearchContacts(term, requester, store).Found?
    ensures forall u :: u in SearchContacts(term, requester, store).contacts ==> u.id != requester
  {
  }

  /** The empty term matches every user with at least one of the three fields present. */
  lemma {:induction false} EmptyTermMatchesAnyPresentField(u: User, requester: UserId)
    requires u.id != requester
    requires u.firstName.Some? || u.lastName.Some? || u.email.Some?
    ensures MatchesTerm(u, requester, [])
  {
    if u.firstName.Some? { EmptyContained(Lower(u.firstName.value)); }
    else if u.lastName.Some? { EmptyContained(Lower(u.lastName.value)); }
    else { EmptyContained(Lower(u.email.value)); }
  }
}
