/** The dispatcher `decrypt_img` of autodecrypt/decrypt_img.py, up to the
    point where it would start an external process: the model returns the
    argument vector instead of spawning it.

    The branch is chosen by the caller's `magic` string. The header detected
    from the file is only checked for `None`; which format it names plays no
    part. */
module Dispatch {
  import opened Wrappers
  import opened ImageHeader
  import opened PathRewrite
  import opened Tools

  /** How `decrypt_img` ends. */
  datatype Outcome =
    /** The path is not a regular file: `get_image_type` exits with -1. */
    | FileNotFound(path: string)
    /** Neither magic matched: the dispatcher exits with 1. */
    | NotAnImage(path: string)
    /** `magic` is neither "img3" nor "img4": reported, nothing is run. */
    | NotSupported(magic: string)
    /** The argument vector handed to `subprocess.Popen`. */
    | Spawn(argv: seq<string>)

  /** `decrypt_img` given the header already detected from `infile`. */
  function DecryptCommand(header: Option<Header>, infile: string, magic: string, key: string, iv: string): (r: Outcome)
    ensures header == None ==> r == NotAnImage(infile)
    ensures r.Spawn? <==> header != None && (magic == "img3" || magic == "img4")
    ensures header != None && magic != "img3" && magic != "img4" ==> r == NotSupported(magic)
    ensures r.Spawn? && magic == "img4" ==>
      ParseArgv(r.argv) == Some(Img4Decrypt(infile, OutputPath(infile), iv + key))
    ensures r.Spawn? && magic == "img3" ==>
      ParseArgv(r.argv) == Some(XpwnDecrypt(infile, OutputPath(infile), iv, key))
  {
    if header == None then NotAnImage(infile)
    else
      var outfile := OutputPath(infile);
      if magic == "img3" || magic == "img4" then
        var ivKey := iv + key;
        if magic == "img4" then Spawn(["img4", "-i", infile, outfile, ivKey])
        else Spawn(["xpwntool", infile, outfile, "-iv", iv, "-k", key])
      else NotSupported(magic)
  }

  /** `decrypt_img` on a path whose content is `file`, or `None` when the
      path is not a regular file. */
  function DecryptImg(file: Option<seq<byte>>, infile: string, magic: string, key: string, iv: string): (r: Outcome)
    ensures file == None ==> r == FileNotFound(infile)
    ensures r.Spawn? ==> file != None && (HasImg3Magic(file.value) || HasImg4Magic(file.value))
    ensures file != None && !HasImg3Magic(file.value) && !HasImg4Magic(file.value) ==> r == NotAnImage(infile)
    ensures file != None && (HasImg3Magic(file.value) || HasImg4Magic(file.value)) ==>
      (r.Spawn? <==> magic == "img3" || magic == "img4")
    ensures file != None && (HasImg3Magic(file.value) || HasImg4Magic(file.value)) && magic != "img3" && magic != "img4" ==>
      r == NotSupported(magic)
    ensures r.Spawn? && magic == "img4" ==>
      ParseArgv(r.argv) == Some(Img4Decrypt(infile, OutputPath(infile), iv + key))
    ensures r.Spawn? && magic == "img3" ==>
      ParseArgv(r.argv) == Some(XpwnDecrypt(infile, OutputPath(infile), iv, key))
  {
    match file
    case None => FileNotFound(infile)
    case Some(data) => DecryptCommand(GetImageType(data), infile, magic, key, iv)
  }

  /** The exact argument vectors: IMG4 gets the IV and key as one argument,
      IV first; IMG3 gets them as separate flagged arguments. */
  lemma DecryptArgv(header: Header, infile: string, magic: string, key: string, iv: string)
    ensures magic == "img4" ==>
      DecryptCommand(Some(header), infile, magic, key, iv) == Spawn(["img4", "-i", infile, OutputPath(infile), iv + key])
    ensures magic == "img3" ==>
      DecryptCommand(Some(header), infile, magic, key, iv) == Spawn(["xpwntool", infile, OutputPath(infile), "-iv", iv, "-k", key])
  {
  }

  /** Which format the header names never matters: any two detected headers
      lead to the same outcome. */
  lemma DetectedFormatIgnored(h1: Header, h2: Header, infile: string, magic: string, key: string, iv: string)
    ensures DecryptCommand(Some(h1), infile, magic, key, iv) == DecryptCommand(Some(h2), infile, magic, key, iv)
  {
  }

  /** An IMG3 file decrypted as "img4" is still handed to the IMG4 tool. */
  lemma MagicOverridesDetection(data: seq<byte>, infile: string, key: string, iv: string)
    requires HasImg3Magic(data)
    ensures GetImageType(data).value.format == Img3
    ensures DecryptImg(Some(data), infile, "img4", key, iv)
      == Spawn(["img4", "-i", infile, OutputPath(infile), iv + key])
  {
  }

  /** A file `<stem>.img3` whose stem holds none of the rewritten patterns
      goes to xpwntool with the output `<stem>.bin` and the IV and key as
      separate flagged arguments. */
  lemma Img3Dispatch(header: Header, stem: string, key: string, iv: string)
    requires !Contains(stem, "im4p") && !Contains(stem, "dfu") && !Contains(stem, "img3")
    ensures DecryptCommand(Some(header), stem + ".img3", "img3", key, iv)
      == Spawn(["xpwntool", stem + ".img3", stem + ".bin", "-iv", iv, "-k", key])
  {
    OutputPathOfExtension(stem, ".img3");
    DecryptArgv(header, stem + ".img3", "img3", key, iv);
  }

  /** A file `<stem>.im4p` whose stem holds none of the rewritten patterns
      goes to img4 with the output `<stem>.bin` and one argument holding the
      IV followed by the key. */
  lemma Img4Dispatch(header: Header, stem: string, key: string, iv: string)
    requires !Contains(stem, "im4p") && !Contains(stem, "dfu") && !Contains(stem, "img3")
    ensures DecryptCommand(Some(header), stem + ".im4p", "img4", key, iv)
      == Spawn(["img4", "-i", stem + ".im4p", stem + ".bin", iv + key])
  {
    OutputPathOfExtension(stem, ".im4p");
    DecryptArgv(header, stem + ".im4p", "img4", key, iv);
  }

  /** "firmware.img3" with key "00112233" and IV "aabbccdd" goes to
      xpwntool, which writes "firmware.bin". */
  lemma Img3DispatchExample(header: Header)
    ensures DecryptCommand(Some(header), "firmware.img3", "img3", "00112233", "aabbccdd")
      == Spawn(["xpwntool", "firmware.img3", "firmware.bin", "-iv", "aabbccdd", "-k", "00112233"])
  {
    var stem := "firmware";
    FirmwareStemIsClean();
    Img3Dispatch(header, stem, "00112233", "aabbccdd");
    assert stem + ".img3" == "firmware.img3";
    assert stem + ".bin" == "firmware.bin";
  }

  /** "firmware.im4p" with key "00112233" and IV "aabbccdd" goes to img4,
      which writes "firmware.bin"; IV and key travel as the single argument
      "aabbccdd00112233". */
  lemma Img4DispatchExample(header: Header)
    ensures DecryptCommand(Some(header), "firmware.im4p", "img4", "00112233", "aabbccdd")
      == Spawn(["img4", "-i", "firmware.im4p", "firmware.bin", "aabbccdd00112233"])
  {
    var stem := "firmware";
    FirmwareStemIsClean();
    Img4Dispatch(header, stem, "00112233", "aabbccdd");
    assert stem + ".im4p" == "firmware.im4p";
    assert stem + ".bin" == "firmware.bin";
    assert "aabbccdd" + "00112233" == "aabbccdd00112233";
  }
}
