// Container images and their names (pkg/container/image.go).
module Images {
  import opened Text

  datatype Container = Container(id: string, firstName: string, image: string, ports: string, status: string)

  datatype Image = Image(name: string, version: string)

  function ParseImageName(str: string): (i: Image)
    ensures ':' !in i.version
  {
    match LastIndex(str, ':')
    case Some(idx) => Image(str[..idx], str[idx + 1..])
    case None => Image(str, "latest")
  }

  // fmt.Sprintf("%s:%s", name, version)
  function PrintImage(i: Image): string {
    i.name + ":" + i.version
  }

  lemma ParseOfPrint(i: Image)
    requires ':' !in i.version
    ensures ParseImageName(PrintImage(i)) == i
  {
    assert PrintImage(i) == i.name + [':'] + i.version;
    LastIndexOfJoin(i.name, ':', i.version);
  }

  // Printing what was parsed gives the text back, with the default tag
  // "latest" when there was none.
  lemma PrintOfParse(str: string)
    ensures PrintImage(ParseImageName(str)) == if ':' in str then str else str + ":latest"
  {
    if ':' in str {
      var idx := LastIndex(str, ':').value;
      assert str == str[..idx] + ":" + str[idx + 1..];
    } else {
      assert str + ":" + "latest" == str + ":latest";
    }
  }

  // The images of a container list, in its order.
  function ImagesOf(cs: seq<Container>): (images: seq<Image>)
    ensures |images| == |cs| && forall k :: 0 <= k < |cs| ==> images[k] == ParseImageName(cs[k].image)
  {
    seq(|cs|, k requires 0 <= k < |cs| => ParseImageName(cs[k].image))
  }

  method ExtractImageList(containers: seq<Container>) returns (images: array<Image>)
    ensures fresh(images) && images[..] == ImagesOf(containers)
  {
    images := new Image[|containers|](_ => Image("", ""));
    for idx := 0 to |containers|
      invariant images.Length == |containers|
      invariant forall k :: 0 <= k < idx ==> images[k] == ParseImageName(containers[k].image)
    {
      images[idx] := ParseImageName(containers[idx].image);
    }
  }
}
