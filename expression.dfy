/**
 * An expression element of a decision model: a keyed, named holder of an
 * expression text, the language it is written in and its type definition.
 * It stores what it is given and interprets nothing.
 */
module Expressions {
  import opened Values

  /**
   * The declared type of an expression. DefaultTypeDefinition is the one an
   * expression starts with; any other definition is known by its type name.
   */
  datatype TypeDefinition = DefaultTypeDefinition | DeclaredTypeDefinition(typeName: string)

  /** A nullable string as string concatenation shows it: null becomes "null". */
  function Shown(s: Option<string>): string {
    match s
    case None => "null"
    case Some(t) => t
  }

  /** One labelled field of a description: the caption with its opening quote, the value, the closing quote. */
  function Field(caption: string, value: string): string {
    caption + value + "'"
  }

  /** The description of an expression, given the texts of its fields. */
  function Render(key: string, name: string, language: string, expression: string, typeDefinition: string): string {
    "DmnExpressionImpl{"
    + Field("key='", key)
    + Field(", name='", name)
    + Field(", expressionLanguage='", language)
    + Field(", expression='", expression)
    + Field(", typeDefinition='", typeDefinition)
    + "}"
  }

  /** `part` occurs in `s` starting at index `i`. */
  ghost predicate OccursAt(s: string, part: string, i: int) {
    0 <= i <= |s| - |part| && s[i..i + |part|] == part
  }

  /** `part` occurs in `s` as a contiguous piece. */
  ghost predicate Mentions(s: string, part: string) {
    exists i :: OccursAt(s, part, i)
  }

  /** A string mentions its own last piece. */
  lemma MentionsSuffix(before: string, part: string)
    ensures Mentions(before + part, part)
  {
    var s := before + part;
    assert OccursAt(s, part, |before|) by {
      assert s[|before|..|before| + |part|] == part;
    }
  }

  /** What a string mentions, it still mentions with more appended. */
  lemma MentionsExtend(s: string, part: string, more: string)
    requires Mentions(s, part)
    ensures Mentions(s + more, part)
  {
    var i :| OccursAt(s, part, i);
    assert OccursAt(s + more, part, i) by {
      assert (s + more)[i..i + |part|] == s[i..i + |part|];
    }
  }

  /** The description mentions every field: the key, the name, the language, the expression and the type definition, each labelled. */
  lemma RenderMentionsEveryField(key: string, name: string, language: string, expression: string, typeDefinition: string)
    ensures Mentions(Render(key, name, language, expression, typeDefinition), Field("key='", key))
    ensures Mentions(Render(key, name, language, expression, typeDefinition), Field(", name='", name))
    ensures Mentions(Render(key, name, language, expression, typeDefinition), Field(", expressionLanguage='", language))
    ensures Mentions(Render(key, name, language, expression, typeDefinition), Field(", expression='", expression))
    ensures Mentions(Render(key, name, language, expression, typeDefinition), Field(", typeDefinition='", typeDefinition))
  {
    var s0 := "DmnExpressionImpl{";
    var s1 := s0 + Field("key='", key);
    var s2 := s1 + Field(", name='", name);
    var s3 := s2 + Field(", expressionLanguage='", language);
    var s4 := s3 + Field(", expression='", expression);
    var s5 := s4 + Field(", typeDefinition='", typeDefinition);
    var s6 := s5 + "}";
    MentionsSuffix(s0, Field("key='", key));
    MentionsExtend(s1, Field("key='", key), Field(", name='", name));
    MentionsExtend(s2, Field("key='", key), Field(", expressionLanguage='", language));
    MentionsExtend(s3, Field("key='", key), Field(", expression='", expression));
    MentionsExtend(s4, Field("key='", key), Field(", typeDefinition='", typeDefinition));
    MentionsExtend(s5, Field("key='", key), "}");
    MentionsSuffix(s1, Field(", name='", name));
    MentionsExtend(s2, Field(", name='", name), Field(", expressionLanguage='", language));
    MentionsExtend(s3, Field(", name='", name), Field(", expression='", expression));
    MentionsExtend(s4, Field(", name='", name), Field(", typeDefinition='", typeDefinition));
    MentionsExtend(s5, Field(", name='", name), "}");
    MentionsSuffix(s2, Field(", expressionLanguage='", language));
    MentionsExtend(s3, Field(", expressionLanguage='", language), Field(", expression='", expression));
    MentionsExtend(s4, Field(", expressionLanguage='", language), Field(", typeDefinition='", typeDefinition));
    MentionsExtend(s5, Field(", expressionLanguage='", language), "}");
    MentionsSuffix(s3, Field(", expression='", expression));
    MentionsExtend(s4, Field(", expression='", expression), Field(", typeDefinition='", typeDefinition));
    MentionsExtend(s5, Field(", expression='", expression), "}");
    MentionsSuffix(s4, Field(", typeDefinition='", typeDefinition));
    MentionsExtend(s5, Field(", typeDefinition='", typeDefinition), "}");
  }

  class DmnExpressionImpl {
    var key: Option<string>
    var name: Option<string>
    var expressionLanguage: Option<string>
    var expression: Option<string>
    var typeDefinition: Option<TypeDefinition>

    /** A new expression has no key, name, language or text, and the default type definition. */
    constructor ()
      ensures key == None && name == None
      ensures expressionLanguage == None && expression == None
      ensures typeDefinition == Some(DefaultTypeDefinition)
    {
      key := None;
      name := None;
      expressionLanguage := None;
      expression := None;
      typeDefinition := Some(DefaultTypeDefinition);
    }

    method SetKey(id: Option<string>)
      modifies this`key
      ensures GetKey() == id
      ensures name == old(name) && expressionLanguage == old(expressionLanguage)
      ensures expression == old(expression) && typeDefinition == old(typeDefinition)
    {
      key := id;
    }

    function GetKey(): Option<string>
      reads this
    {
      key
    }

    method SetExpression(text: Option<string>)
      modifies this`expression
      ensures GetExpression() == text
      ensures key == old(key) && name == old(name)
      ensures expressionLanguage == old(expressionLanguage) && typeDefinition == old(typeDefinition)
    {
      expression := text;
    }

    function GetExpression(): Option<string>
      reads this
    {
      expression
    }

    method SetExpressionLanguage(language: Option<string>)
      modifies this`expressionLanguage
      ensures GetExpressionLanguage() == language
      ensures key == old(key) && name == old(name)
      ensures expression == old(expression) && typeDefinition == old(typeDefinition)
    {
      expressionLanguage := language;
    }

    function GetExpressionLanguage(): Option<string>
      reads this
    {
      expressionLanguage
    }

    /** Replaces the type definition as a whole, null included. */
    method SetTypeDefinition(definition: Option<TypeDefinition>)
      modifies this`typeDefinition
      ensures GetTypeDefinition() == definition
      ensures key == old(key) && name == old(name)
      ensures expressionLanguage == old(expressionLanguage) && expression == old(expression)
    {
      typeDefinition := definition;
    }

    function GetTypeDefinition(): Option<TypeDefinition>
      reads this
    {
      typeDefinition
    }

    /**
     * The description of this expression. How a type definition describes
     * itself is not part of this model, so it is passed in as `describe`.
     */
    function ToString(describe: TypeDefinition -> string): (s: string)
      reads this
      ensures Mentions(s, Field("key='", Shown(key)))
      ensures Mentions(s, Field(", name='", Shown(name)))
      ensures Mentions(s, Field(", expressionLanguage='", Shown(expressionLanguage)))
      ensures Mentions(s, Field(", expression='", Shown(expression)))
      ensures typeDefinition.None? ==> Mentions(s, Field(", typeDefinition='", "null"))
      ensures typeDefinition.Some? ==> Mentions(s, Field(", typeDefinition='", describe(typeDefinition.value)))
    {
      var typeText := match typeDefinition
        case None => "null"
        case Some(t) => describe(t);
      RenderMentionsEveryField(Shown(key), Shown(name), Shown(expressionLanguage), Shown(expression), typeText);
      Render(Shown(key), Shown(name), Shown(expressionLanguage), Shown(expression), typeText)
    }
  }
}
