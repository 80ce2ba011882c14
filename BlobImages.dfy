/**
  Image URLs served from blob storage: the container URL, fixed when the
  service is built, then '/', then the image name, with no normalisation
  (blob names are case-sensitive).
 */
module BlobImages {

  class AzureBlobImageService {
    const blobContainerUrl: string

    /** The container URL comes from configuration and never changes afterwards. */
    constructor (containerUrl: string)
      ensures blobContainerUrl == containerUrl
    {
      blobContainerUrl := containerUrl;
    }

    /** The URL starts with the container URL, has '/' next, and ends with the image name verbatim. */
    function GetImageUrl(imageName: string): (url: string)
      ensures |url| == |blobContainerUrl| + 1 + |imageName|
      ensures url[..|blobContainerUrl|] == blobContainerUrl
      ensures url[|blobContainerUrl|] == '/'
      ensures url[|blobContainerUrl| + 1..] == imageName
    {
      blobContainerUrl + "/" + imageName
    }
  }

  /**
    No normalisation: distinct image names, even ones that differ only in
    case or in slashes, give distinct URLs.
   */
  lemma ImageUrlIsInjective(service: AzureBlobImageService, a: string, b: string)
    ensures service.GetImageUrl(a) == service.GetImageUrl(b) ==> a == b
  {
  }
}
