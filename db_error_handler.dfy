/**
 * The persistence-error normalizer: turns an error raised by the database
 * layer into the one message string a client is shown.
 */
module DbErrorHandler {
  import opened Wrappers
  import JsString

  /** The value of `err.code`: absent, a number, or a string (matched with `===`, so never a duplicate-key code). */
  datatype Code = NoCode | Number(n: int) | Text(s: string)

  /** JavaScript truthiness of `err.code`. */
  function IsTruthy(c: Code): (b: bool)
    ensures !b <==> c.NoCode? || c == Number(0) || c == Text("")
    ensures IsDuplicateKey(c) ==> b
  {
    match c
    case NoCode => false
    case Number(n) => n != 0
    case Text(t) => t != ""
  }

  /** The two MongoDB duplicate-key codes. */
  predicate IsDuplicateKey(c: Code) {
    c == Number(11000) || c == Number(11001)
  }

  /** One property of `err.errors`: its key and its `message` (None when that is not a string). */
  datatype ErrorEntry = ErrorEntry(path: string, message: Option<string>)

  /** JavaScript truthiness of `err.errors[key].message`. */
  predicate HasMessage(e: ErrorEntry) {
    e.message.Some? && e.message.value != ""
  }

  /**
   * A persistence error: its code, its `message` (None when absent or not a
   * string) and the properties of `err.errors` in enumeration order (empty
   * when `err.errors` is absent).
   */
  datatype DbError = DbError(code: Code, message: Option<string>, errors: seq<ErrorEntry>)

  const GenericMessage := "Something went wrong"
  const UniqueFallback := "Unique field already exists"
  const AlreadyExists := " already exists"

  /** The field name cut out of a duplicate-key message: after the last ".$", up to the last "_1". */
  function ExtractField(s: string): (r: string)
    ensures |r| <= |s|
  {
    JsString.Substring(s, JsString.LastIndexOf(s, ".$") + 2, JsString.LastIndexOf(s, "_1"))
  }

  /**
   * getUniqueErrorMessage: the capitalised field name followed by
   * " already exists"; the fallback only when `err.message` cannot be read
   * as a string (the `catch` branch).
   */
  function UniqueErrorMessage(message: Option<string>): (r: string)
    ensures message.None? ==> r == UniqueFallback
    ensures message.Some? ==> |r| >= |AlreadyExists| && r[|r| - |AlreadyExists|..] == AlreadyExists
    ensures message.Some? ==> r[..|r| - |AlreadyExists|] == JsString.CapitalizeFirst(ExtractField(message.value))
  {
    match message
    case None => UniqueFallback
    case Some(s) => JsString.CapitalizeFirst(ExtractField(s)) + AlreadyExists
  }

  /** No entry from index `lo` on has a non-empty message. */
  predicate NoMessageFrom(es: seq<ErrorEntry>, lo: nat)
    requires lo <= |es|
  {
    forall j | lo <= j < |es| :: !HasMessage(es[j])
  }

  /**
   * The loop over `err.errors`: the message of the last entry that has a
   * non-empty one, or "" when none has.
   */
  function LastNonEmptyMessage(es: seq<ErrorEntry>): (r: string)
    ensures r != "" ==> exists i | 0 <= i < |es| :: es[i].message == Some(r)
  {
    if es == [] then ""
    else if HasMessage(es[|es| - 1]) then es[|es| - 1].message.value
    else LastNonEmptyMessage(es[..|es| - 1])
  }

  /**
   * The loop keeps the LAST hit: the result is "" exactly when no entry has
   * a message, and otherwise the message of an entry after which no entry
   * has one.
   */
  lemma {:induction false} LastNonEmptyMessageIsLast(es: seq<ErrorEntry>)
    ensures LastNonEmptyMessage(es) == "" <==> NoMessageFrom(es, 0)
    ensures LastNonEmptyMessage(es) != "" ==> exists i | 0 <= i < |es| ::
              es[i].message == Some(LastNonEmptyMessage(es)) && NoMessageFrom(es, i + 1)
  {
    if es != [] && !HasMessage(es[|es| - 1]) {
      var p := es[..|es| - 1];
      LastNonEmptyMessageIsLast(p);
      assert forall i | 0 <= i < |p| :: p[i] == es[i];
      if LastNonEmptyMessage(p) != "" {
        var i :| 0 <= i < |p| && p[i].message == Some(LastNonEmptyMessage(p)) && NoMessageFrom(p, i + 1);
        assert es[i].message == Some(LastNonEmptyMessage(es)) && NoMessageFrom(es, i + 1);
      }
    } else if es != [] {
      assert es[|es| - 1].message == Some(LastNonEmptyMessage(es)) && NoMessageFrom(es, |es|);
    }
  }

  /** An entry with a message and none after it decides the result. */
  lemma LastMessageWins(es: seq<ErrorEntry>, i: int)
    requires 0 <= i < |es| && HasMessage(es[i]) && NoMessageFrom(es, i + 1)
    ensures LastNonEmptyMessage(es) == es[i].message.value
  {
    LastNonEmptyMessageIsLast(es);
  }

  /**
   * getErrorMessage, as a value: duplicate-key codes give the field message,
   * any other truthy code the generic message, and a falsy code the last
   * non-empty validation message (or "").
   */
  function ErrorMessage(err: DbError): (r: string)
    ensures IsDuplicateKey(err.code) ==> r == UniqueErrorMessage(err.message)
    ensures IsTruthy(err.code) && !IsDuplicateKey(err.code) ==> r == GenericMessage
    ensures !IsTruthy(err.code) ==> (r == "" <==> NoMessageFrom(err.errors, 0))
    ensures !IsTruthy(err.code) && r != "" ==> exists i | 0 <= i < |err.errors| ::
              err.errors[i].message == Some(r) && NoMessageFrom(err.errors, i + 1)
  {
    if IsTruthy(err.code) then
      if IsDuplicateKey(err.code) then UniqueErrorMessage(err.message) else GenericMessage
    else
      LastNonEmptyMessageIsLast(err.errors);
      LastNonEmptyMessage(err.errors)
  }

  /** getErrorMessage: the switch on `err.code`, or the scan of `err.errors` that keeps the last hit. */
  method GetErrorMessage(err: DbError) returns (message: string)
    ensures message == ErrorMessage(err)
  {
    message := "";
    if IsTruthy(err.code) {
      if IsDuplicateKey(err.code) {
        message := UniqueErrorMessage(err.message);
      } else {
        message := GenericMessage;
      }
    } else {
      for i := 0 to |err.errors|
        invariant message == LastNonEmptyMessage(err.errors[..i])
      {
        if HasMessage(err.errors[i]) {
          message := err.errors[i].message.value;
        }
        assert err.errors[..i + 1][..i] == err.errors[..i];
      }
      assert err.errors[..|err.errors|] == err.errors;
    }
  }

  /**
   * A message of the form pre + ".$" + field + "_1" + post, where neither
   * marker occurs after the ones shown, yields exactly `field`.
   */
  lemma ExtractsIndexField(pre: string, field: string, post: string)
    requires JsString.Free(field, ".$")
    requires JsString.Free(post, ".$") && JsString.Free(post, "_1")
    ensures ExtractField(pre + ".$" + field + "_1" + post) == field
  {
    var s := pre + ".$" + field + "_1" + post;
    var a := |pre|;
    var b := a + 2 + |field|;
    LastSeparatorIsIndexStart(pre, field, post);
    LastSuffixIsIndexEnd(pre, field, post);
    assert s[a + 2..b] == field;
  }

  /** The last ".$" of such a message is the one before the field. */
  lemma LastSeparatorIsIndexStart(pre: string, field: string, post: string)
    requires JsString.Free(field, ".$") && JsString.Free(post, ".$")
    ensures JsString.LastIndexOf(pre + ".$" + field + "_1" + post, ".$") == |pre|
  {
    var s := pre + ".$" + field + "_1" + post;
    var a := |pre|;
    var b := a + 2 + |field|;
    assert s[a] == '.' && s[a + 1] == '$' && s[b] == '_' && s[b + 1] == '1';
    JsString.OccursAtPair(s, ".$", a);
    forall j | a < j
      ensures !JsString.OccursAt(s, ".$", j)
    {
      JsString.OccursAtPair(s, ".$", j);
      if a + 2 <= j < b - 1 {
        assert s[j] == field[j - a - 2] && s[j + 1] == field[j + 1 - a - 2];
        JsString.OccursAtPair(field, ".$", j - a - 2);
      } else if b + 2 <= j < |s| - 1 {
        assert s[j] == post[j - b - 2] && s[j + 1] == post[j + 1 - b - 2];
        JsString.OccursAtPair(post, ".$", j - b - 2);
      }
    }
    JsString.LastIndexOfIs(s, ".$", a);
  }

  /** The last "_1" of such a message is the one after the field. */
  lemma LastSuffixIsIndexEnd(pre: string, field: string, post: string)
    requires JsString.Free(post, "_1")
    ensures JsString.LastIndexOf(pre + ".$" + field + "_1" + post, "_1") == |pre| + 2 + |field|
  {
    var s := pre + ".$" + field + "_1" + post;
    var b := |pre| + 2 + |field|;
    assert s[b] == '_' && s[b + 1] == '1';
    JsString.OccursAtPair(s, "_1", b);
    forall j | b < j
      ensures !JsString.OccursAt(s, "_1", j)
    {
      JsString.OccursAtPair(s, "_1", j);
      if b + 2 <= j < |s| - 1 {
        assert s[j] == post[j - b - 2] && s[j + 1] == post[j + 1 - b - 2];
        JsString.OccursAtPair(post, "_1", j - b - 2);
      }
    }
    JsString.LastIndexOfIs(s, "_1", b);
  }

  lemma ExtractsEmail(pre: string, post: string)
    requires JsString.Free(post, ".$") && JsString.Free(post, "_1")
    ensures ExtractField(pre + ".$email_1" + post) == "email"
  {
    var field := "email";
    assert '$' !in field;
    JsString.FreeWhenCharAbsent(field, ".$", 1);
    ExtractsIndexField(pre, field, post);
    assert pre + ".$email_1" + post == pre + ".$" + field + "_1" + post;
  }

  /** The unique index on `email` yields "Email already exists". */
  lemma EmailAlreadyExists(pre: string, post: string)
    requires JsString.Free(post, ".$") && JsString.Free(post, "_1")
    ensures UniqueErrorMessage(Some(pre + ".$email_1" + post)) == "Email already exists"
  {
    var m := pre + ".$email_1" + post;
    ExtractsEmail(pre, post);
    CapitalizedEmail();
    assert UniqueErrorMessage(Some(m)) == JsString.CapitalizeFirst(ExtractField(m)) + AlreadyExists;
  }

  lemma CapitalizedEmail()
    ensures JsString.CapitalizeFirst("email") + AlreadyExists == "Email already exists"
  {
    assert JsString.ToUpperCase('e') == 'E';
  }

  /**
   * Without either marker the bounds are 1 and -1, which `substring` turns
   * into [0, 1): the message's first character, upper-cased.
   */
  lemma NoMarkersGiveFirstCharacter(s: string)
    requires JsString.Free(s, ".$") && JsString.Free(s, "_1")
    ensures |s| > 0 ==> UniqueErrorMessage(Some(s)) == [JsString.ToUpperCase(s[0])] + AlreadyExists
    ensures |s| == 0 ==> UniqueErrorMessage(Some(s)) == AlreadyExists
  {
    JsString.LastIndexOfMissing(s, ".$");
    JsString.LastIndexOfMissing(s, "_1");
    assert ExtractField(s) == JsString.Substring(s, 1, -1);
    if |s| > 0 {
      assert ExtractField(s) == s[0..1];
    }
  }

  /** An empty extracted field still takes the success path: the message is just " already exists". */
  lemma EmptyFieldIsNotFallback(s: string)
    requires ExtractField(s) == ""
    ensures UniqueErrorMessage(Some(s)) == AlreadyExists
    ensures UniqueErrorMessage(Some(s)) != UniqueFallback
  {
  }

  /** A code given as a string never matches the numeric duplicate-key cases. */
  lemma TextCodeIsGeneric(err: DbError)
    requires err.code.Text? && err.code.s != ""
    ensures ErrorMessage(err) == GenericMessage
  {
  }
}
