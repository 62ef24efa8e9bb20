/** Worked examples of `path_to_func_name` and `convert_to_pascal_case`,
    taken from the filters' own test cases. */
module FuncNameExamples {
  import opened Wrappers
  import opened Strings
  import opened Json
  import opened FuncName

  lemma UpperGet()
    ensures AsciiUpper("get") == "GET"
  {
    var r := AsciiUpper("get");
    assert r[0] == 'G' && r[1] == 'E' && r[2] == 'T';
  }


  /** A segment that does not open with `{` is a literal. */
  lemma LiteralSegment(seg: string)
    requires |seg| > 0 && seg[0] != '{'
    ensures LiteralNames([seg]) == [PascalCase(seg)] && ParamNames([seg]) == []
  {
    assert [seg][..0] == [];
    assert !IsParam(seg);
  }

  /** A segment in braces is a parameter, dropped when the braces are empty. */
  lemma ParamSegment(name: string)
    ensures LiteralNames(["{" + name + "}"]) == []
    ensures ParamNames(["{" + name + "}"]) == (if name == "" then [] else [PascalCase(name)])
  {
    var seg := "{" + name + "}";
    assert [seg][..0] == [];
    assert IsParam(seg);
    assert ParamName(seg) == name;
  }

  /** The name lists of three segments, one segment at a time. */
  lemma NamesOfThree(a: string, b: string, c: string)
    ensures LiteralNames([a, b, c]) == LiteralNames([a]) + LiteralNames([b]) + LiteralNames([c])
    ensures ParamNames([a, b, c]) == ParamNames([a]) + ParamNames([b]) + ParamNames([c])
  {
    NamesAppend([a], [b]);
    NamesAppend([a, b], [c]);
    assert [a] + [b] == [a, b];
    assert [a, b] + [c] == [a, b, c];
  }

  /** A literal, a parameter and a literal. */
  lemma LiteralParamLiteral(a: string, p: string, c: string)
    requires |a| > 0 && a[0] != '{' && |c| > 0 && c[0] != '{'
    ensures LiteralNames([a, "{" + p + "}", c]) == [PascalCase(a), PascalCase(c)]
    ensures ParamNames([a, "{" + p + "}", c]) == (if p == "" then [] else [PascalCase(p)])
  {
    NamesOfThree(a, "{" + p + "}", c);
    LiteralSegment(a);
    ParamSegment(p);
    LiteralSegment(c);
  }

  /** A literal, an empty segment, a literal and a parameter. */
  lemma LiteralEmptyLiteralParam(a: string, c: string, p: string)
    requires |a| > 0 && a[0] != '{' && |c| > 0 && c[0] != '{'
    ensures LiteralNames([a, "", c, "{" + p + "}"]) == [PascalCase(a), PascalCase(c)]
    ensures ParamNames([a, "", c, "{" + p + "}"]) == (if p == "" then [] else [PascalCase(p)])
  {
    var q := "{" + p + "}";
    NamesOfThree(a, "", c);
    NamesAppend([a, "", c], [q]);
    assert [a, "", c] + [q] == [a, "", c, q];
    assert [""][..0] == [];
    LiteralSegment(a);
    LiteralSegment(c);
    ParamSegment(p);
  }

  lemma PascalUserId()
    ensures PascalCase("user_id") == "UserId"
  {
    PascalCaseSeparator("user", '_', "id");
    assert "user" + ['_'] + "id" == "user_id";
    PascalExampleWords();
    PascalId();
  }

  lemma PascalId()
    ensures PascalCase("id") == "Id"
  {
  }

  /** A single word only has its first letter uppercased. */
  lemma PascalWord(c: char, rest: string)
    requires !IsSeparator(c) && '_' !in rest && '-' !in rest
    ensures PascalCase([c] + rest) == [AsciiUpperChar(c)] + rest
  {
    assert forall i :: 0 <= i < |rest| ==> rest[i] in rest;
    PascalNoSeparators(rest);
    assert ([c] + rest)[1..] == rest;
    if IsAsciiUpper(c) {
      assert AsciiUpperChar(c) == c;
    }
  }

  /** The single words of the worked examples, each with its first letter
      uppercased. */
  lemma PascalExampleWords()
    ensures PascalCase("user") == "User" && PascalCase("posts") == "Posts"
    ensures PascalCase("api") == "Api" && PascalCase("resource") == "Resource"
  {
    PascalWord('u', "ser");
    assert "user" == ['u'] + "ser";
    assert "User" == ['U'] + "ser";
    PascalWord('p', "osts");
    assert "posts" == ['p'] + "osts";
    assert "Posts" == ['P'] + "osts";
    PascalWord('a', "pi");
    assert "api" == ['a'] + "pi";
    assert "Api" == ['A'] + "pi";
    PascalWord('r', "esource");
    assert "resource" == ['r'] + "esource";
    assert "Resource" == ['R'] + "esource";
  }

  /** Empty or separator-only input converts to the empty string. */
  lemma PascalSeparatorsOnly()
    ensures PascalCase("") == ""
    ensures PascalCase("_-_") == ""
  {
  }

  /** The function name of a `get` operation, from its segments and names. */
  lemma GetNameFrom(path: string, segs: seq<string>, literals: seq<string>, params: seq<string>, name: string)
    requires Segments(path) == segs
    requires LiteralNames(segs) == literals && ParamNames(segs) == params
    requires ComposeName("GET", literals, params) == name
    ensures PathToFuncName(Str(path), Some(Str("get"))) == Success(name)
  {
    UpperGet();
  }

  lemma BracedUserId()
    ensures "{" + "user_id" + "}" == "{user_id}"
  {
  }

  lemma UserPostsNames()
    ensures LiteralNames(["user", "{user_id}", "posts"]) == ["User", "Posts"]
    ensures ParamNames(["user", "{user_id}", "posts"]) == ["UserId"]
  {
    var u := "user_id";
    assert u != "";
    LiteralParamLiteral("user", u, "posts");
    BracedUserId();
    PascalExampleWords();
    PascalUserId();
  }

  lemma UserPostsCompose()
    ensures ComposeName("GET", ["User", "Posts"], ["UserId"]) == "GET_User_Posts_By_UserId"
  {
    assert Join(["User", "Posts"], "_") == "User_Posts";
  }

  /** `/user/{user_id}/posts` with `get` gives `GET_User_Posts_By_UserId`. */
  lemma UserPostsExample()
    ensures PathToFuncName(Str("/user/{user_id}/posts"), Some(Str("get"))) == Success("GET_User_Posts_By_UserId")
  {
    var parts := ["user", "{user_id}", "posts"];
    assert "/user/{user_id}/posts" == "/" + Join(parts, "/");
    SegmentsOfJoined(parts);
    UserPostsNames();
    UserPostsCompose();
    GetNameFrom("/user/{user_id}/posts", ["user", "{user_id}", "posts"], ["User", "Posts"], ["UserId"],
                "GET_User_Posts_By_UserId");
  }

  lemma OnlyParameterSegments()
    ensures Segments("/{id}") == ["{id}"]
  {
    var parts := ["{id}"];
    assert "/{id}" == "/" + Join(parts, "/");
    SegmentsOfJoined(parts);
  }

  lemma OnlyParameterNames()
    ensures LiteralNames(["{id}"]) == [] && ParamNames(["{id}"]) == ["Id"]
  {
    ParamSegment("id");
    assert "{" + "id" + "}" == "{id}";
    PascalId();
  }

  lemma OnlyParameterCompose()
    ensures ComposeName("GET", [], ["Id"]) == "GET_By_Id"
  {
    assert Join(["Id"], "_") == "Id";
  }

  /** `/{id}` has no literal segment: `GET_By_Id`. */
  lemma OnlyParameterExample()
    ensures PathToFuncName(Str("/{id}"), Some(Str("get"))) == Success("GET_By_Id")
  {
    OnlyParameterSegments();
    OnlyParameterNames();
    OnlyParameterCompose();
    GetNameFrom("/{id}", ["{id}"], [], ["Id"], "GET_By_Id");
  }

  lemma EmptyBracesNames()
    ensures LiteralNames(["api", "{}", "resource"]) == ["Api", "Resource"]
    ensures ParamNames(["api", "{}", "resource"]) == []
  {
    LiteralParamLiteral("api", "", "resource");
    assert "{" + "" + "}" == "{}";
    PascalExampleWords();
  }

  lemma EmptyBracesCompose()
    ensures ComposeName("GET", ["Api", "Resource"], []) == "GET_Api_Resource"
  {
    assert Join(["Api", "Resource"], "_") == "Api_Resource";
  }

  /** The empty parameter `{}` is dropped: `/api/{}/resource` gives `GET_Api_Resource`. */
  lemma EmptyBracesExample()
    ensures PathToFuncName(Str("/api/{}/resource"), Some(Str("get"))) == Success("GET_Api_Resource")
  {
    var parts := ["api", "{}", "resource"];
    assert "/api/{}/resource" == "/" + Join(parts, "/");
    SegmentsOfJoined(parts);
    EmptyBracesNames();
    EmptyBracesCompose();
    GetNameFrom("/api/{}/resource", ["api", "{}", "resource"], ["Api", "Resource"], [], "GET_Api_Resource");
  }

  lemma DoubleSlashSegments()
    ensures Segments("/api//resource/{id}") == ["api", "", "resource", "{id}"]
  {
    var parts := ["api", "", "resource", "{id}"];
    assert "/api//resource/{id}" == "/" + Join(parts, "/");
    SegmentsOfJoined(parts);
  }

  lemma DoubleSlashNames()
    ensures LiteralNames(["api", "", "resource", "{id}"]) == ["Api", "Resource"]
    ensures ParamNames(["api", "", "resource", "{id}"]) == ["Id"]
  {
    LiteralEmptyLiteralParam("api", "resource", "id");
    assert "{" + "id" + "}" == "{id}";
    PascalExampleWords();
    PascalId();
  }

  lemma DoubleSlashCompose()
    ensures ComposeName("GET", ["Api", "Resource"], ["Id"]) == "GET_Api_Resource_By_Id"
  {
    assert Join(["Api", "Resource"], "_") == "Api_Resource";
  }

  /** An empty segment is skipped: `/api//resource/{id}` gives `GET_Api_Resource_By_Id`. */
  lemma DoubleSlashExample()
    ensures PathToFuncName(Str("/api//resource/{id}"), Some(Str("get"))) == Success("GET_Api_Resource_By_Id")
  {
    DoubleSlashSegments();
    DoubleSlashNames();
    DoubleSlashCompose();
    GetNameFrom("/api//resource/{id}", ["api", "", "resource", "{id}"], ["Api", "Resource"], ["Id"],
                "GET_Api_Resource_By_Id");
  }
}
