/** The command lines of the two external tools autodecrypt/decrypt_img.py
    hands its work to, as the tools themselves read them:

      img4 -i <input> <output> <iv+key>      decrypt an IMG4 payload
      img4 -i <input> -b                     print the payload's key bag
      xpwntool <input> <output> -iv <iv> -k <key>   decrypt an IMG3 file

    The argument lists built by the dispatcher are proved against this
    reading. */
module Tools {
  import opened Wrappers

  /** One external tool run, as the tool understands its arguments. */
  datatype Invocation =
    | Img4Decrypt(input: string, output: string, ivKey: string)
    | Img4KeyBag(input: string)
    | XpwnDecrypt(input: string, output: string, iv: string, key: string)

  /** How the tools interpret an argument vector; `None` for one that
      neither tool accepts. */
  function ParseArgv(argv: seq<string>): Option<Invocation> {
    if |argv| == 5 && argv[0] == "img4" && argv[1] == "-i" then
      Some(Img4Decrypt(argv[2], argv[3], argv[4]))
    else if |argv| == 4 && argv[0] == "img4" && argv[1] == "-i" && argv[3] == "-b" then
      Some(Img4KeyBag(argv[2]))
    else if |argv| == 7 && argv[0] == "xpwntool" && argv[3] == "-iv" && argv[5] == "-k" then
      Some(XpwnDecrypt(argv[1], argv[2], argv[4], argv[6]))
    else
      None
  }
}
