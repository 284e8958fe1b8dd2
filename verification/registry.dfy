/** The component registry the build step produces: an immutable map from
    lower-cased component name to its definition. The compiler reads it and
    never changes it. */
module Registry {

  /** One declared parameter: the name, followed by whatever else the
      definition lists for it (the registry stores each as an array whose
      first element is the name). */
  datatype Parameter = Parameter(name: string, info: seq<string>)

  datatype Definition = Definition(
    usage: string,
    arguments: seq<Parameter>,
    html: string,
    style: string)

  type Registry = map<string, Definition>
}
