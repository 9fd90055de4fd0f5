/**
 * `DockerfilePropertyTester`: the two properties that enable the build
 * commands in menus, telling whether the selection or the active editor
 * is a file called `Dockerfile`, in any case.
 */
module DockerfileTester {
  import opened JavaLang

  /** The tested receiver: a workspace file, an editor input on a file, or anything else. */
  datatype Receiver = WorkspaceFile(name: string) | FileEditorInput(fileName: string) | OtherReceiver

  const IS_DOCKERFILE: string := "isDockerfile"
  const IS_DOCKERFILE_EDITOR: string := "isDockerfileEditor"

  predicate NamedDockerfile(name: string)
  {
    EqualsIgnoreCase(name, "Dockerfile")
  }

  /**
   * `test`: `isDockerfile` asks for a file and `isDockerfileEditor` for an
   * editor input whose file has that name; any other property is false.
   * The arguments and the expected value take no part.
   */
  function Test<A, E>(receiver: Receiver, property: string, args: seq<A>, expectedValue: E): (r: bool)
    ensures r <==> (property == IS_DOCKERFILE && receiver.WorkspaceFile? && NamedDockerfile(receiver.name))
                   || (property == IS_DOCKERFILE_EDITOR && receiver.FileEditorInput? && NamedDockerfile(receiver.fileName))
  {
    if property == IS_DOCKERFILE then
      receiver.WorkspaceFile? && EqualsIgnoreCase(receiver.name, "Dockerfile")
    else if property == IS_DOCKERFILE_EDITOR then
      receiver.FileEditorInput? && EqualsIgnoreCase(receiver.fileName, "Dockerfile")
    else false
  }

  /** The name is compared letter by letter without regard to case: `DOCKERFILE` and `dockerfile` pass, as `Dockerfile` does. */
  lemma CaseIgnored(name: string)
    requires |name| == |"Dockerfile"|
    requires forall k :: 0 <= k < |name| ==> ToLowerAscii(name[k]) == ToLowerAscii("Dockerfile"[k])
    ensures Test<int, int>(WorkspaceFile(name), IS_DOCKERFILE, [], 0)
    ensures Test<int, int>(FileEditorInput(name), IS_DOCKERFILE_EDITOR, [], 0)
  {
    EqualsIgnoreCaseByChar(name, "Dockerfile");
  }

  /** Only a name of the same length can pass: `Dockerfile.dev` or `my.Dockerfile` never do. */
  lemma OtherNamesRejected(name: string, property: string)
    requires |name| != |"Dockerfile"|
    ensures !Test<int, int>(WorkspaceFile(name), property, [], 0)
    ensures !Test<int, int>(FileEditorInput(name), property, [], 0)
  {
    assert !NamedDockerfile(name) by {
      assert |ToLowerAsciiString(name)| != |ToLowerAsciiString("Dockerfile")|;
    }
  }

  /** The two properties never hold of the same receiver, and neither of anything but a file or editor input. */
  lemma PropertiesMatchTheirReceiver<A, E>(receiver: Receiver, args: seq<A>, expectedValue: E)
    ensures !(Test(receiver, IS_DOCKERFILE, args, expectedValue) && Test(receiver, IS_DOCKERFILE_EDITOR, args, expectedValue))
    ensures receiver.OtherReceiver? ==> forall p :: !Test(receiver, p, args, expectedValue)
  {
  }
}
