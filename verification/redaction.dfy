/** Redaction of log events: what a log line shows, and what it cannot depend on. */
module Redaction {
  import opened Options
  import Strings = Text

  /** A key of a mapping: a string, or another hashable value with the text that `str` gives it. */
  datatype Key = Name(text: string) | Other(id: nat, text: string)

  datatype Field = Field(key: Key, value: Value)

  /** A logged value. Everything that is no mapping, list, tuple or string is one `Leaf`. */
  datatype Value =
    | Text(text: string)
    | Leaf(id: nat)
    | Mapping(fields: seq<Field>)
    | List(items: seq<Value>)
    | Tuple(items: seq<Value>)

  const REDACTED_FIELDS: set<string> := {
    "password", "passwd", "secret", "token", "access_token", "refresh_token", "id_token",
    "authorization", "cookie", "session_id", "client_secret", "api_key", "api_token",
    "subject_email", "subject_name", "subject_phone", "subject_address", "dob", "ssn", "tax_id"
  }

  const REDACTED_VALUE := Text("[REDACTED]")

  predicate Sensitive(key: Key) {
    Strings.Lower(key.text) in REDACTED_FIELDS
  }

  function Walk(v: Value): Value {
    match v
    case Mapping(fields) =>
      Mapping(seq(|fields|, i requires 0 <= i < |fields| =>
        Field(fields[i].key, if Sensitive(fields[i].key) then REDACTED_VALUE else Walk(fields[i].value))))
    case List(items) => List(seq(|items|, i requires 0 <= i < |items| => Walk(items[i])))
    case Tuple(items) => Tuple(seq(|items|, i requires 0 <= i < |items| => Walk(items[i])))
    case _ => v
  }

  /** The keys of a mapping are distinct, at every depth. */
  ghost predicate WellFormed(v: Value) {
    match v
    case Mapping(fields) =>
      && (forall i, j :: 0 <= i < j < |fields| ==> fields[i].key != fields[j].key)
      && (forall i :: 0 <= i < |fields| ==> WellFormed(fields[i].value))
    case List(items) => forall i :: 0 <= i < |items| ==> WellFormed(items[i])
    case Tuple(items) => forall i :: 0 <= i < |items| ==> WellFormed(items[i])
    case _ => true
  }

  // ---------------------------------------------------------------------------
  // Lookup along a path
  // ---------------------------------------------------------------------------

  datatype Step = At(index: nat) | Under(key: Key)

  function Find(fields: seq<Field>, key: Key): (n: nat)
    ensures n <= |fields| && (n < |fields| ==> fields[n].key == key)
    ensures forall i :: 0 <= i < n ==> fields[i].key != key
  {
    if fields == [] || fields[0].key == key then 0
    else
      var n := Find(fields[1..], key);
      assert forall i :: 1 <= i < n + 1 ==> fields[i] == fields[1..][i - 1];
      n + 1
  }

  function Child(v: Value, step: Step): Option<Value> {
    match step
    case Under(key) =>
      if v.Mapping? && Find(v.fields, key) < |v.fields| then Some(v.fields[Find(v.fields, key)].value) else None
    case At(i) =>
      if (v.List? || v.Tuple?) && i < |v.items| then Some(v.items[i]) else None
  }

  function Get(v: Value, path: seq<Step>): Option<Value> {
    if path == [] then Some(v)
    else match Child(v, path[0])
      case None => None
      case Some(child) => Get(child, path[1..])
  }

  predicate Hides(step: Step) {
    step.Under? && Sensitive(step.key)
  }

  /** The position of the first sensitive key of a path; its length if there is none. */
  function FirstHidden(path: seq<Step>): (n: nat)
    ensures n <= |path| && (n < |path| ==> Hides(path[n]))
    ensures forall i :: 0 <= i < n ==> !Hides(path[i])
  {
    if path == [] || Hides(path[0]) then 0 else 1 + FirstHidden(path[1..])
  }

  lemma WalkChild(v: Value, step: Step)
    ensures Child(v, step).None? <==> Child(Walk(v), step).None?
    ensures Child(v, step).Some? ==> Child(Walk(v), step) == Some(if Hides(step) then REDACTED_VALUE else Walk(Child(v, step).value))
  {
    if step.Under? && v.Mapping? {
      var n, m := Find(v.fields, step.key), Find(Walk(v).fields, step.key);
      assert forall i :: 0 <= i < |v.fields| ==> Walk(v).fields[i].key == v.fields[i].key;
      assert n == m;
    }
  }

  /** What a redacted event holds at any path: the redacted original where no key on the way is
      sensitive, the fixed text where the first sensitive key is the last step, nothing beyond. */
  lemma {:induction false} RedactedAt(v: Value, path: seq<Step>)
    ensures var n := FirstHidden(path);
            var reached := Get(v, path[..if n < |path| then n + 1 else n]);
            Get(Walk(v), path)
            == if reached.None? then None
               else if n == |path| then Some(Walk(reached.value))
               else if n + 1 == |path| then Some(Text("[REDACTED]"))
               else None
    decreases path
  {
    hide Walk, Sensitive;
    var n := FirstHidden(path);
    if path != [] {
      WalkChild(v, path[0]);
      if Child(v, path[0]).Some? {
        if n == 0 {
          assert path[..1][1..] == [];
          assert |path| > 1 ==> path[1..] != [];
        } else {
          RedactedAt(Child(v, path[0]).value, path[1..]);
          var k := if n < |path| then n + 1 else n;
          assert path[..k][1..] == path[1..][..k - 1];
          assert path[..|path|] == path && path[1..][..|path| - 1] == path[1..];
        }
      }
    }
  }

  lemma {:induction false} RedactionIsIdempotent(v: Value)
    ensures Walk(Walk(v)) == Walk(v)
    decreases v
  {
    match v
    case Mapping(fields) =>
      forall i | 0 <= i < |fields| ensures Walk(Walk(v)).fields[i] == Walk(v).fields[i] {
        RedactionIsIdempotent(fields[i].value);
      }
    case List(items) =>
      forall i | 0 <= i < |items| ensures Walk(Walk(v)).items[i] == Walk(v).items[i] {
        RedactionIsIdempotent(items[i]);
      }
    case Tuple(items) =>
      forall i | 0 <= i < |items| ensures Walk(Walk(v)).items[i] == Walk(v).items[i] {
        RedactionIsIdempotent(items[i]);
      }
    case _ =>
  }

  /** A name of subject data, in any mixture of cases. */
  predicate IsSubjectData(name: string) {
    || Strings.Spells(name, "subject_email") || Strings.Spells(name, "subject_name")
    || Strings.Spells(name, "subject_phone") || Strings.Spells(name, "subject_address")
    || Strings.Spells(name, "dob") || Strings.Spells(name, "ssn") || Strings.Spells(name, "tax_id")
  }

  /** A name of a secret of authentication or transport. */
  predicate IsSecret(name: string) {
    || Strings.Spells(name, "password") || Strings.Spells(name, "passwd") || Strings.Spells(name, "secret")
    || Strings.Spells(name, "token") || Strings.Spells(name, "access_token") || Strings.Spells(name, "refresh_token")
    || Strings.Spells(name, "id_token") || Strings.Spells(name, "authorization") || Strings.Spells(name, "cookie")
    || Strings.Spells(name, "session_id") || Strings.Spells(name, "client_secret") || Strings.Spells(name, "api_key")
    || Strings.Spells(name, "api_token")
  }

  lemma SecretsAreLower()
    ensures Strings.LowerWord("password") && Strings.LowerWord("passwd") && Strings.LowerWord("secret")
    ensures Strings.LowerWord("token") && Strings.LowerWord("cookie") && Strings.LowerWord("session_id")
    ensures Strings.LowerWord("api_key") && Strings.LowerWord("api_token")
  {
  }

  lemma TokensAreLower()
    ensures Strings.LowerWord("access_token") && Strings.LowerWord("refresh_token") && Strings.LowerWord("id_token")
    ensures Strings.LowerWord("authorization") && Strings.LowerWord("client_secret")
  {
  }

  lemma SubjectDataIsLower()
    ensures Strings.LowerWord("subject_email") && Strings.LowerWord("subject_name") && Strings.LowerWord("subject_phone")
    ensures Strings.LowerWord("subject_address") && Strings.LowerWord("dob") && Strings.LowerWord("ssn")
    ensures Strings.LowerWord("tax_id")
  {
  }

  lemma FieldsAreLower(word: string)
    requires word in REDACTED_FIELDS
    ensures Strings.LowerWord(word)
  {
    hide Strings.LowerWord;
    SecretsAreLower();
    TokensAreLower();
    SubjectDataIsLower();
  }

  lemma SensitiveInFull(key: Key)
    ensures Sensitive(key) <==> IsSubjectData(key.text) || IsSecret(key.text)
  {
    hide Strings.Lower, Strings.Spells;
    forall word | word in REDACTED_FIELDS ensures Strings.Lower(key.text) == word <==> Strings.Spells(key.text, word) {
      FieldsAreLower(word);
      Strings.LowerComparesLetters(key.text, word);
    }
  }

  predicate Visible(path: seq<Step>) {
    FirstHidden(path) == |path|
  }

  /** The promise about subject data and secrets: whatever the event, however deep and however spelled,
      what stands under such a name never reaches a log line; and nothing else is withheld for its own
      name. */
  lemma NothingConfidentialIsLogged(v: Value, path: seq<Step>, key: Key)
    ensures IsSubjectData(key.text) || IsSecret(key.text) ==>
              Get(Walk(v), path + [Under(key)]) in {None, Some(Text("[REDACTED]"))}
    ensures Visible(path) && !IsSubjectData(key.text) && !IsSecret(key.text) && Get(v, path + [Under(key)]).Some? ==>
              Get(Walk(v), path + [Under(key)]) == Some(Walk(Get(v, path + [Under(key)]).value))
  {
    hide Walk, Get, Sensitive, IsSubjectData, IsSecret;
    SensitiveInFull(key);
    var all := path + [Under(key)];
    RedactedAt(v, all);
    assert all[..|all|] == all;
    var n := FirstHidden(all);
    assert Hides(all[|path|]) <==> Sensitive(key);
    assert forall i :: 0 <= i < |path| ==> all[i] == path[i];
  }

  // ---------------------------------------------------------------------------
  // What a log line discloses
  // ---------------------------------------------------------------------------

  /** A value without its parts: the content of a leaf, the keys or the length of a container. */
  datatype Head =
    | Absent
    | TextHead(text: string)
    | LeafHead(id: nat)
    | MappingHead(keys: seq<Key>)
    | ListHead(length: nat)
    | TupleHead(length: nat)

  function HeadOf(v: Value): Head {
    match v
    case Text(text) => TextHead(text)
    case Leaf(id) => LeafHead(id)
    case Mapping(fields) => MappingHead(seq(|fields|, i requires 0 <= i < |fields| => fields[i].key))
    case List(items) => ListHead(|items|)
    case Tuple(items) => TupleHead(|items|)
  }

  function HeadAt(v: Value, path: seq<Step>): Head {
    match Get(v, path)
    case None => Absent
    case Some(x) => HeadOf(x)
  }

  /** Two values that look the same along every path without a sensitive key. */
  ghost predicate SameVisible(v: Value, w: Value) {
    forall path :: Visible(path) ==> HeadAt(v, path) == HeadAt(w, path)
  }

  lemma WalkKeepsHead(v: Value)
    ensures HeadOf(Walk(v)) == HeadOf(v)
  {
    if v.Mapping? {
      assert forall i :: 0 <= i < |v.fields| ==> Walk(v).fields[i].key == v.fields[i].key;
    }
  }

  lemma HeadOfRedacted(v: Value, path: seq<Step>)
    requires Visible(path)
    ensures HeadAt(Walk(v), path) == HeadAt(v, path)
  {
    RedactedAt(v, path);
    assert path[..|path|] == path;
    if Get(v, path).Some? {
      WalkKeepsHead(Get(v, path).value);
    }
  }

  lemma ChildrenLookTheSame(v: Value, w: Value, step: Step)
    requires SameVisible(v, w) && !Hides(step) && Child(v, step).Some? && Child(w, step).Some?
    ensures SameVisible(Child(v, step).value, Child(w, step).value)
  {
    forall path | Visible(path)
      ensures HeadAt(Child(v, step).value, path) == HeadAt(Child(w, step).value, path)
    {
      assert ([step] + path)[1..] == path;
      assert Visible([step] + path);
      assert HeadAt(v, [step] + path) == HeadAt(w, [step] + path);
    }
  }

  lemma FieldIsChild(v: Value, i: nat)
    requires WellFormed(v) && v.Mapping? && i < |v.fields|
    ensures Child(v, Under(v.fields[i].key)) == Some(v.fields[i].value)
  {
  }

  lemma {:induction false} SameVisibleSameLog(v: Value, w: Value)
    requires WellFormed(v) && WellFormed(w) && SameVisible(v, w)
    ensures Walk(v) == Walk(w)
    decreases v
  {
    assert Visible([]) && HeadAt(v, []) == HeadOf(v) && HeadAt(w, []) == HeadOf(w);
    match v
    case Mapping(fields) =>
      var others := w.fields;
      var keys := HeadOf(v).keys;
      assert |others| == |keys| == |fields|;
      forall i | 0 <= i < |fields| ensures Walk(v).fields[i] == Walk(w).fields[i] {
        var key := fields[i].key;
        assert keys[i] == key && keys[i] == others[i].key;
        if !Sensitive(key) {
          FieldIsChild(v, i);
          FieldIsChild(w, i);
          ChildrenLookTheSame(v, w, Under(key));
          SameVisibleSameLog(fields[i].value, others[i].value);
        }
      }
    case List(items) =>
      forall i | 0 <= i < |items| ensures Walk(items[i]) == Walk(w.items[i]) {
        ChildrenLookTheSame(v, w, At(i));
        SameVisibleSameLog(items[i], w.items[i]);
      }
    case Tuple(items) =>
      forall i | 0 <= i < |items| ensures Walk(items[i]) == Walk(w.items[i]) {
        ChildrenLookTheSame(v, w, At(i));
        SameVisibleSameLog(items[i], w.items[i]);
      }
    case _ =>
  }

  /** Non-interference, exactly: two events give the same log line if and only if they differ in
      nothing but what lies under sensitive keys. */
  lemma LogsExactlyTheVisible(v: Value, w: Value)
    requires WellFormed(v) && WellFormed(w)
    ensures Walk(v) == Walk(w) <==> SameVisible(v, w)
  {
    if Walk(v) == Walk(w) {
      forall path | Visible(path) ensures HeadAt(v, path) == HeadAt(w, path) {
        HeadOfRedacted(v, path);
        HeadOfRedacted(w, path);
      }
    } else if SameVisible(v, w) {
      SameVisibleSameLog(v, w);
    }
  }
}
