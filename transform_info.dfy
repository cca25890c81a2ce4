/** The records the transformer passes to the code generator
    (`structs/transform_info.rs`), and the classification of an event
    handler attribute's value into a reference to a function or a statement
    to run, with its rendering as JavaScript. */
module TransformInfo {
  import opened Wrappers
  import opened Strings
  import UtilsText

  /** Insert `text` into the script just after offset `position`. */
  datatype AddStringToPosition = AddStringToPosition(position: nat, text: string)

  /** A top-level reactive variable and the power of two it was given. */
  datatype VariableNameAndAssignedNumber = VariableNameAndAssignedNumber(name: string, assignment: nat)

  datatype EventBindingStatement = EventBindingStatement(statement: string, arg: string)

  datatype EventTarget =
    | RefToFunction(name: string)
    | Statement(statement: string)
    | EventBinding(binding: EventBindingStatement)

  datatype ActionAndTarget = ActionAndTarget(actionName: string, action: EventTarget, target: string)

  /** An element id the generated code looks up; `toDelete` marks an id the
      compiler made up, which the runtime strips again. */
  datatype NeededIdName = NeededIdName(idName: string, toDelete: bool)

  /** The characters `word_is_one_word` accepts. */
  predicate IsWordChar(c: char) {
    IsAlnum(c) || c == '_' || c == '$'
  }

  /** `word_is_one_word`: every character is a word character (so the empty
      string is one word). */
  predicate WordIsOneWord(word: string)
    ensures WordIsOneWord(word) ==>
              forall i :: 0 <= i < |word| ==> word[i] !in " \t\n()=;.+"
  {
    forall i :: 0 <= i < |word| ==> IsWordChar(word[i])
  }

  /** `EventTarget::to_string`: a function reference is its name, a
      statement becomes an arrow function without parameters and a binding
      statement an arrow function of its argument. */
  function ToString(t: EventTarget): (r: string)
    ensures t.Statement? ==> StartsWith(r, "()=>") && r[4..] == t.statement
    ensures t.EventBinding? ==>
              StartsWith(r, "(" + t.binding.arg + ")=>") && r[|t.binding.arg| + 4..] == t.binding.statement
    ensures t.RefToFunction? ==> r == t.name
  {
    match t
    case RefToFunction(name) => name
    case Statement(statement) => "()=>" + statement
    case EventBinding(b) => "(" + b.arg + ")=>" + b.statement
  }

  /** `EventTarget::new`: a value whose trimmed form ends with `)` is kept as
      a statement; otherwise a single word names a function; anything else
      is a statement whose reactive variables get `.v`. */
  function New(content: string, variables: seq<string>): (r: EventTarget)
    ensures !r.EventBinding?
  {
    if EndsWith(Trim(content), ")") then Statement(content)
    else if WordIsOneWord(content) then RefToFunction(content)
    else Statement(UtilsText.AppendV(content, variables, []).0)
  }

  /** Reads a rendered handler back: an arrow without parameters is a
      statement, anything else a function name. */
  function ParseHandler(r: string): EventTarget {
    if StartsWith(r, "()=>") then Statement(r[4..]) else RefToFunction(r)
  }

  /** Trimming keeps a contiguous part of the text, so the last character
      of a non-empty trimmed text occurs in the text. */
  lemma TrimLastInside(s: string)
    requires |Trim(s)| > 0
    ensures exists i :: 0 <= i < |s| && s[i] == Trim(s)[|Trim(s)| - 1]
  {
    var a := TrimStart(s);
    var t := TrimEnd(a);
    assert t == a[..|t|] && a == s[|s| - |a|..];
    assert s[|s| - |a| + |t| - 1] == t[|t| - 1];
  }

  /** A one-word value cannot end with `)` once trimmed. */
  lemma OneWordIsNoCall(content: string)
    requires WordIsOneWord(content)
    ensures !EndsWith(Trim(content), ")")
  {
    var t := Trim(content);
    if |t| > 0 {
      TrimLastInside(content);
      var i :| 0 <= i < |content| && content[i] == t[|t| - 1];
      assert IsWordChar(content[i]);
      assert t[|t| - 1] != ')';
      assert t[|t| - 1..] != ")";
    }
  }

  /** A handler becomes a function reference exactly when it is one word. */
  lemma NewRefIffOneWord(content: string, variables: seq<string>)
    ensures New(content, variables).RefToFunction? <==> WordIsOneWord(content)
  {
    if WordIsOneWord(content) {
      OneWordIsNoCall(content);
    }
  }

  /** A value ending in a call is kept verbatim, variables and all. */
  lemma NewKeepsCalls(content: string, variables: seq<string>)
    requires EndsWith(Trim(content), ")")
    ensures New(content, variables) == Statement(content)
  {
  }

  /** The empty value is a (nameless) function reference. */
  lemma NewEmptyIsRef(variables: seq<string>)
    ensures New("", variables) == RefToFunction("")
  {
    assert Trim("") == "";
  }

  /** A statement that names no variable as a word is kept verbatim. */
  lemma NewWithoutVariables(content: string, variables: seq<string>)
    requires forall i :: 0 <= i < |variables| ==> !UtilsText.WordExistsInText(variables[i], content)
    ensures New(content, variables).Statement? ==> New(content, variables) == Statement(content)
  {
    UtilsText.AppendVAbsent(content, variables, []);
  }

  /** A one-word function name reads back as itself. */
  lemma RefRoundTrip(name: string)
    requires WordIsOneWord(name)
    ensures ParseHandler(ToString(RefToFunction(name))) == RefToFunction(name)
  {
    if |name| > 0 {
      assert name[0] != '(';
      assert !StartsWith(name, "()=>");
    }
  }

  /** Rendering is lossless on what `New` produces: the kind and the text of
      the handler can be read back from the JavaScript. */
  lemma HandlerRoundTrip(content: string, variables: seq<string>)
    ensures ParseHandler(ToString(New(content, variables))) == New(content, variables)
  {
    var t := New(content, variables);
    if t.RefToFunction? {
      NewRefIffOneWord(content, variables);
      RefRoundTrip(content);
    } else {
      assert t.Statement?;
      var r := ToString(t);
      assert StartsWith(r, "()=>") && r[4..] == t.statement;
    }
  }
}
