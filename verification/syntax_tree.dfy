/** The part of a TypeScript syntax tree the story schematic inspects,
    abstracted from the nodes `findNodes` returns. Every sequence is in
    document order. */
module SyntaxTree {
  import opened Wrappers

  /** The syntax kind of a type node, reduced to the three keywords the
      schematic recognises; every other kind is `OtherKind`. */
  datatype TypeKind = StringKeyword | NumberKeyword | BooleanKeyword | OtherKind

  /** A parameter's type annotation: absent, a reference to a type by a
      plain identifier, or any other type node (a literal type, a keyword,
      a union, ...). */
  datatype TypeAnnotation = NoAnnotation | TypeReference(typeName: string) | OtherAnnotation

  /** A parameter; `name` is `None` for a destructuring pattern, whose
      `.text` is undefined. */
  datatype Parameter = Parameter(name: Option<string>, annotation: TypeAnnotation)

  /** A variable's initializer: missing (`let x;`), an arrow function with
      its parameters, or anything else. */
  datatype Initializer = NoInitializer | ArrowFunction(parameters: seq<Parameter>) | OtherInitializer

  /** A variable declaration; `name` is the identifier's text, `None` for a
      binding pattern (`const { a } = b;`), whose `.text` is undefined, and
      `containsJsx` records whether a JSX element occurs beneath it. */
  datatype VariableDeclaration = VariableDeclaration(name: Option<string>, initializer: Initializer, containsJsx: bool)

  /** An interface member; `name` is `None` for a member without a name
      node (an index, call or construct signature), and `kind` is `None`
      when it has no type annotation. */
  datatype PropertySignature = PropertySignature(name: Option<string>, kind: Option<TypeKind>)

  datatype InterfaceDeclaration = InterfaceDeclaration(name: string, members: seq<PropertySignature>)

  /** A parsed component file: all variable declarations and all interface
      declarations, each in document order. */
  datatype SourceFile = SourceFile(variables: seq<VariableDeclaration>, interfaces: seq<InterfaceDeclaration>)
}
