/** The Catalog's command record, as far as this project follows it. */
module CommandModel {
  import opened CommandIdentity
  import opened Wrappers

  datatype CommandRequirement = CommandRequirement(provider: string, exported: string)

  datatype CommandProvision = CommandProvision(id: string)

  datatype CommandAdapter = Core | Runtime | Native | Delegate | Exe | Bun | Python | Pwsh | Cmd

  datatype CommandNode = CommandNode(
    address: string,
    space: CommandSpace,
    namespace: Option<string>,
    path: seq<string>,
    parent: Option<string>,
    aliasOf: Option<string>,
    runnable: bool,
    entry: Option<string>,
    adapter: Option<CommandAdapter>,
    handler: Option<string>,
    product: Option<string>,
    requirements: seq<CommandRequirement>,
    provisions: seq<CommandProvision>,
    delegateOwner: Option<string>,
    declaresNative: bool,
    diagnostic: Option<string>,
    nativeOwner: Option<string>)
}
